/** Base-128 varints: what the bytes mean, the shortest form the encoder emits, and what the
    64-bit and the 32-bit decoder make of any input. */
module Varint {
  import opened Bits

  /** Outcome of reading a value off the front of a byte string. */
  datatype Parsed<+T> = Err | Ok(value: T, rest: seq<byte>)

  /** One complete varint: continuation bit on every byte but the last. */
  predicate IsVarint(p: seq<byte>) {
    |p| > 0 && if |p| == 1 then p[0] < 0x80 else p[0] >= 0x80 && IsVarint(p[1..])
  }

  /** The number that a string of 7-bit groups stands for, least significant group first. */
  function Base128(p: seq<byte>): nat {
    if p == [] then 0 else p[0] % 0x80 + 0x80 * Base128(p[1..])
  }

  /** Bytes up to and including the first one without continuation bit; 0 when there is none. */
  function VarintSize(s: seq<byte>): (n: nat)
    ensures n <= |s|
  {
    if s == [] then 0
    else if s[0] < 0x80 then 1
    else
      var n := VarintSize(s[1..]);
      if n == 0 then 0 else n + 1
  }

  function EncVarint(v: nat): (s: seq<byte>)
    ensures |s| >= 1
  {
    if v < 0x80 then [v] else [v % 0x80 + 0x80] + EncVarint(v / 0x80)
  }

  /** The 64-bit decoder: at most ten bytes, the sum taken modulo 2^64. */
  function DecVarint(s: seq<byte>): (r: Parsed<nat>)
    ensures r.Ok? ==> r.value < 0x1_0000_0000_0000_0000 && |r.rest| < |s|
  {
    var n := VarintSize(s);
    if 1 <= n <= 10 then Ok(Low64(Base128(s[..n])), s[n..]) else Err
  }

  /** The loop of the 32-bit decoder, with its bit position kept in eight bits. */
  function Var32Loop(s: seq<byte>, bitpos: nat, result: nat): (r: Parsed<nat>)
    requires result < 0x1_0000_0000
    ensures r.Ok? ==> r.value < 0x1_0000_0000 && |r.rest| < |s|
  {
    if s == [] then Err
    else
      var b := s[0];
      var signExtension := if bitpos < 63 then 0xFF else 0x01;
      if bitpos >= 32 && b % 0x80 != 0 && (result / 0x8000_0000 == 0 || b != signExtension) then Err
      else
        var result' := NextResult(result, b, bitpos);
        var bitpos' := (bitpos + 7) % 0x100;
        if b >= 0x80 then Var32Loop(s[1..], bitpos', result')
        else if bitpos' == 35 && b >= 0x10 then Err
        else Ok(result', s[1..])
  }

  /** `result |= (uint32_t)(b & 0x7F) << bitpos`. */
  function MergeGroup(result: nat, b: byte, bitpos: nat): (r: nat)
    requires result < 0x1_0000_0000
    ensures r < 0x1_0000_0000
  {
    Pow2Word();
    OrBound(result, Shl(b % 0x80, bitpos, 32), 32);
    Or(result, Shl(b % 0x80, bitpos, 32))
  }

  function NextResult(result: nat, b: byte, bitpos: nat): (r: nat)
    requires result < 0x1_0000_0000
    ensures r < 0x1_0000_0000
  {
    if bitpos >= 32 then result else MergeGroup(result, b, bitpos)
  }

  function DecVarint32(s: seq<byte>): (r: Parsed<nat>)
    ensures r.Ok? ==> r.value < 0x1_0000_0000 && |r.rest| < |s|
  {
    if s == [] then Err
    else if s[0] < 0x80 then Ok(s[0], s[1..])
    else Var32Loop(s[1..], 7, s[0] % 0x80)
  }

  // ----- where a varint ends -----

  lemma {:induction false} VarintSizeAt(s: seq<byte>, n: nat)
    requires n <= |s| && n > 0
    ensures VarintSize(s) == n <==> IsVarint(s[..n])
  {
    if n > 1 && s[0] >= 0x80 {
      VarintSizeAt(s[1..], n - 1);
      assert s[1..][..n - 1] == s[..n][1..];
    }
  }

  lemma {:induction false} VarintSizeExtends(s: seq<byte>, t: seq<byte>)
    requires VarintSize(s) > 0
    ensures VarintSize(s + t) == VarintSize(s)
  {
    assert (s + t)[0] == s[0];
    if s[0] >= 0x80 {
      VarintSizeExtends(s[1..], t);
      assert (s + t)[1..] == s[1..] + t;
    }
  }

  /** Skipping `k` bytes that all carry the continuation bit. */
  lemma {:induction false} VarintSizeSkips(s: seq<byte>, k: nat)
    requires k <= |s|
    requires forall j :: 0 <= j < k ==> s[j] >= 0x80
    ensures VarintSize(s) == if VarintSize(s[k..]) == 0 then 0 else k + VarintSize(s[k..])
  {
    if k > 0 {
      VarintSizeSkips(s[1..], k - 1);
      assert s[1..][k - 1..] == s[k..];
    }
  }

  lemma {:induction false} Base128Append(p: seq<byte>, b: byte)
    ensures Base128(p + [b]) == Base128(p) + Scaled(b % 0x80, 7 * |p|)
  {
    if p == [] {
      assert [b][1..] == [];
    } else {
      Base128Append(p[1..], b);
      assert (p + [b])[1..] == p[1..] + [b];
      Scaled128(b % 0x80, 7 * (|p| - 1));
    }
  }

  lemma {:induction false} Scaled128(x: nat, n: nat)
    ensures Scaled(x, n + 7) == 0x80 * Scaled(x, n)
  {
    assert Scaled(x, n + 2) == 4 * Scaled(x, n);
    assert Scaled(x, n + 4) == 4 * Scaled(x, n + 2);
    assert Scaled(x, n + 6) == 4 * Scaled(x, n + 4);
  }

  lemma {:induction false} Base128Bound(p: seq<byte>)
    ensures Base128(p) < Pow2(7 * |p|)
  {
    if p != [] {
      Base128Bound(p[1..]);
      Pow2Small();
      Pow2Add(7, 7 * (|p| - 1));
    }
  }

  // ----- the encoder's form -----

  /** The encoder emits one complete varint that stands for its argument. */
  lemma {:induction false} EncVarintMeaning(v: nat)
    ensures IsVarint(EncVarint(v))
    ensures Base128(EncVarint(v)) == v
  {
    var e := EncVarint(v);
    if v < 0x80 {
      assert e[1..] == [];
    } else {
      EncVarintMeaning(v / 0x80);
      assert e[1..] == EncVarint(v / 0x80);
    }
  }

  /** No varint for `v` is shorter than the encoder's. */
  lemma {:induction false} EncVarintShortest(v: nat, p: seq<byte>)
    requires IsVarint(p) && Base128(p) == v
    ensures |EncVarint(v)| <= |p|
    decreases |p|
  {
    if |p| > 1 {
      EncVarintShortest(Base128(p[1..]), p[1..]);
      assert v / 0x80 == Base128(p[1..]);
    } else {
      assert p[1..] == [];
    }
  }

  /** `k` groups of seven bits are enough for a value below `2^(7k)`. */
  lemma {:induction false} EncVarintLength(v: nat, k: nat)
    requires k > 0 && v < Pow2(7 * k)
    ensures |EncVarint(v)| <= k
    decreases k
  {
    if v >= 0x80 {
      Pow2Small();
      if k == 1 {
        assert false;
      }
      Pow2Add(7, 7 * (k - 1));
      EncVarintLength(v / 0x80, k - 1);
    }
  }

  /** Every 64-bit value fits the encoder's buffer of ten bytes. */
  lemma {:induction false} EncVarintFits(v: nat)
    requires v < 0x1_0000_0000_0000_0000
    ensures |EncVarint(v)| <= 10
  {
    Pow2Long();
    PowMonotone(64, 70);
    EncVarintLength(v, 10);
  }

  lemma {:induction false} EncVarintSize(v: nat, t: seq<byte>)
    ensures VarintSize(EncVarint(v) + t) == |EncVarint(v)|
  {
    var e := EncVarint(v);
    EncVarintMeaning(v);
    assert (e + t)[..|e|] == e;
    VarintSizeAt(e + t, |e|);
  }

  // ----- the 64-bit decoder -----

  /** It accepts exactly the inputs that start with a complete varint of at most ten bytes, and
      returns what those bytes stand for modulo 2^64. */
  lemma {:induction false} DecVarintAccepts(s: seq<byte>)
    ensures DecVarint(s).Ok? <==> exists n :: 0 <= n <= |s| && n <= 10 && IsVarint(s[..n])
    ensures forall n :: 0 <= n <= |s| && n <= 10 && IsVarint(s[..n]) ==>
              DecVarint(s) == Ok(Low64(Base128(s[..n])), s[n..])
  {
    var m := VarintSize(s);
    if m > 0 {
      VarintSizeAt(s, m);
    }
    forall n | 0 <= n <= |s| && IsVarint(s[..n])
      ensures m == n
    {
      VarintSizeAt(s, n);
    }
  }

  /** Decoding undoes encoding and leaves what follows unread. */
  lemma {:induction false} VarintRoundTrip(v: nat, t: seq<byte>)
    requires v < 0x1_0000_0000_0000_0000
    ensures DecVarint(EncVarint(v) + t) == Ok(v, t)
  {
    EncVarintSize(v, t);
    EncVarintFits(v);
    EncVarintMeaning(v);
    var e := EncVarint(v);
    assert (e + t)[..|e|] == e && (e + t)[|e|..] == t;
  }

  lemma {:induction false} DecVarintExtends(s: seq<byte>, t: seq<byte>)
    requires DecVarint(s).Ok?
    ensures DecVarint(s + t) == Ok(DecVarint(s).value, DecVarint(s).rest + t)
  {
    VarintSizeExtends(s, t);
    var n := VarintSize(s);
    assert (s + t)[..n] == s[..n];
    assert (s + t)[n..] == s[n..] + t;
  }

  // ----- the 32-bit decoder -----

  lemma {:induction false} MergeMeaning(x: nat, b: byte, k: nat)
    requires x < Pow2(k) && k <= 32 && x < 0x1_0000_0000
    ensures MergeGroup(x, b, k) == Low32(x + Scaled(b % 0x80, k))
  {
    Pow2Word();
    OrShl(x, b % 0x80, k, 32);
  }

  lemma {:induction false} GroupRoom(p: seq<byte>)
    requires 7 * |p| < 32
    ensures Base128(p) < Pow2(7 * |p|) <= 0x1_0000_0000
  {
    Base128Bound(p);
    Pow2Word();
    PowMonotone(7 * |p|, 32);
  }

  /** Or-ing in the next group of an undamaged varint adds it, modulo 2^32. */
  lemma {:induction false} MergeGroupAdds(p: seq<byte>, b: byte)
    requires 7 * |p| < 32 && Base128(p) < 0x1_0000_0000
    ensures MergeGroup(Base128(p), b, 7 * |p|) == Low32(Base128(p + [b]))
  {
    GroupRoom(p);
    Base128Append(p, b);
    MergeMeaning(Base128(p), b, 7 * |p|);
  }

  /** Groups from bit 32 up do not reach the low word. */
  lemma {:induction false} HighGroupVanishes(p: seq<byte>, b: byte)
    requires 7 * |p| >= 32
    ensures Low32(Base128(p + [b])) == Low32(Base128(p))
  {
    Base128Append(p, b);
    ScaledVanishes(Base128(p), b % 0x80, 7 * |p|);
  }

  lemma {:induction false} ScaledVanishes(x: nat, g: nat, k: nat)
    requires k >= 32
    ensures Low32(x + Scaled(g, k)) == Low32(x)
  {
    var y := Scaled(g, k - 32);
    assert Scaled(g, k) == y * 0x1_0000_0000 by {
      ScaledTwice(g, k - 32, 32);
      ScaledIsProduct(y, 32);
      Pow2Word();
    }
    WrapMultiple(x, 0x1_0000_0000, y);
  }

  lemma {:induction false} TopBit(x: nat)
    requires x < 0x1_0000_0000
    ensures x / 0x8000_0000 == 0 <==> x < 0x8000_0000
  {
  }

  lemma {:induction false} NoWrapAround(bitpos: nat)
    requires bitpos <= 63
    ensures (bitpos + 7) % 0x100 == bitpos + 7
  {
  }

  lemma {:induction false} Var32Unfold(s: seq<byte>, k: nat, x: nat)
    requires s != [] && k < 0xF9 && x < 0x1_0000_0000
    ensures var r, y := Var32Loop(s, k, x), NextResult(x, s[0], k);
            r.Err? || r == if s[0] >= 0x80 then Var32Loop(s[1..], k + 7, y) else Ok(y, s[1..])
  {
    assert (k + 7) % 0x100 == k + 7;
  }

  lemma {:induction false} NextResultMeaning(p: seq<byte>, b: byte)
    ensures NextResult(Low32(Base128(p)), b, 7 * |p|) == Low32(Base128(p + [b]))
  {
    if 7 * |p| >= 32 {
      HighGroupVanishes(p, b);
    } else {
      GroupRoom(p);
      assert Low32(Base128(p)) == Base128(p);
      MergeGroupAdds(p, b);
    }
  }

  /** With the bytes `p` behind it, the loop either rejects or returns the low word. */
  lemma {:induction false} Var32LoopRefines(p: seq<byte>, s: seq<byte>, x: nat)
    requires |p| > 0 && VarintSize(s) > 0 && |p| + VarintSize(s) <= 10
    requires x == Low32(Base128(p))
    ensures var r, n := Var32Loop(s, 7 * |p|, x), VarintSize(s);
            r.Err? || r == Ok(Low32(Base128(p + s[..n])), s[n..])
    decreases s
  {
    var b, n := s[0], VarintSize(s);
    Var32Unfold(s, 7 * |p|, x);
    NextResultMeaning(p, b);
    if b >= 0x80 {
      assert 7 * |p + [b]| == 7 * |p| + 7;
      Var32LoopRefines(p + [b], s[1..], NextResult(x, b, 7 * |p|));
    }
    HeadMoved(p, s, n);
  }

  lemma {:induction false} HeadMoved(p: seq<byte>, s: seq<byte>, n: nat)
    requires 0 < n <= |s|
    ensures p + s[..n] == p + [s[0]] + s[1..][..n - 1]
    ensures s[1..][n - 1..] == s[n..]
    ensures n == 1 ==> p + s[..n] == p + [s[0]]
  {
  }

  lemma {:induction false} OneByteVarint(s: seq<byte>)
    requires |s| > 0 && s[0] < 0x80
    ensures DecVarint(s) == Ok(s[0], s[1..])
  {
    var p := s[..1];
    assert p[1..] == [];
    assert Base128(p) == p[0];
  }

  lemma {:induction false} Var32Refines(s: seq<byte>)
    requires 1 < VarintSize(s) <= 10
    ensures var n := VarintSize(s);
            DecVarint32(s).Err? || DecVarint32(s) == Ok(Low32(Base128(s[..n])), s[n..])
  {
    var n := VarintSize(s);
    var p := [s[0]];
    assert p[1..] == [];
    assert 7 * |p| == 7 && Low32(Base128(p)) == s[0] % 0x80;
    Var32LoopRefines(p, s[1..], s[0] % 0x80);
    assert s[..n] == p + s[1..][..n - 1];
    assert s[1..][n - 1..] == s[n..];
  }

  /** On a complete varint of at most ten bytes the 32-bit decoder either rejects or returns the
      64-bit result modulo 2^32, having read the same bytes. */
  lemma {:induction false} Var32RefinesVar64(s: seq<byte>)
    requires 1 <= VarintSize(s) <= 10
    ensures DecVarint(s).Ok?
    ensures DecVarint32(s).Err?
         || DecVarint32(s) == Ok(Low32(DecVarint(s).value), DecVarint(s).rest)
  {
    if s[0] < 0x80 {
      OneByteVarint(s);
    } else {
      Var32Refines(s);
      Low32OfLow64(Base128(s[..VarintSize(s)]));
    }
  }

  lemma {:induction false} Var32Continues(s: seq<byte>, k: nat, x: nat)
    requires s != [] && s[0] >= 0x80 && k < 32 && x < 0x1_0000_0000
    ensures Var32Loop(s, k, x) == Var32Loop(s[1..], k + 7, NextResult(x, s[0], k))
  {
    NoWrapAround(k);
  }

  lemma {:induction false} Var32Ends(s: seq<byte>, k: nat, x: nat)
    requires s != [] && s[0] < 0x80 && k < 32 && x < 0x1_0000_0000
    requires k == 28 ==> s[0] < 0x10
    ensures Var32Loop(s, k, x).Ok?
  {
  }

  /** Groups that end by bit 32 are accepted. */
  lemma {:induction false} Var32LoopAccepts(s: seq<byte>, bitpos: nat, result: nat)
    requires result < 0x1_0000_0000 && VarintSize(s) > 0
    requires bitpos + 7 * VarintSize(s) <= 35
    requires bitpos + 7 * VarintSize(s) == 35 ==> s[VarintSize(s) - 1] < 0x10
    ensures Var32Loop(s, bitpos, result).Ok?
    decreases |s|
  {
    if s[0] >= 0x80 {
      Var32Continues(s, bitpos, result);
      Var32LoopAccepts(s[1..], bitpos + 7, NextResult(result, s[0], bitpos));
    } else {
      Var32Ends(s, bitpos, result);
    }
  }

  /** The last of `k + 1` groups is what is left above the first `k`. */
  lemma {:induction false} EncVarintLast(v: nat, k: nat)
    requires |EncVarint(v)| == k + 1
    ensures EncVarint(v)[k] == v / Pow2(7 * k)
    decreases k
  {
    if k > 0 {
      EncVarintLast(v / 0x80, k - 1);
      Pow2Small();
      Pow2Add(7, 7 * (k - 1));
      DivDiv(v, 0x80, Pow2(7 * (k - 1)));
    }
  }

  lemma {:induction false} DivDiv(x: nat, a: nat, b: nat)
    requires a > 0 && b > 0
    ensures a * b > 0 && x / (a * b) == x / a / b
  {
    var q, q' := x / a, x / a / b;
    var r, r' := x - a * q, q - b * q';
    DivisionBounds(x, a);
    DivisionBounds(q, b);
    AtLeastOnce(a, b);
    Regrouped(a, b, q', r', q);
    RemainderFits(a, b, r, r');
    DivModUnique(x, a * b, q', a * r' + r);
  }

  lemma {:induction false} DivisionBounds(x: nat, a: nat)
    requires a > 0
    ensures 0 <= x - a * (x / a) < a
  {
  }

  lemma {:induction false} Regrouped(a: nat, b: nat, q': nat, r': nat, q: nat)
    requires q == b * q' + r'
    ensures a * q == q' * (a * b) + a * r'
  {
    assert a * (b * q') == q' * (a * b);
  }

  lemma {:induction false} RemainderFits(a: nat, b: nat, r: nat, r': nat)
    requires r < a && r' < b
    ensures a * r' + r < a * b
  {
    MulMonotone(r' + 1, b, a);
    assert (r' + 1) * a == a * r' + a;
  }

  lemma {:induction false} Varint32Accepts(v: nat, t: seq<byte>)
    requires v < 0x1_0000_0000
    ensures DecVarint32(EncVarint(v) + t).Ok?
  {
    var e := EncVarint(v);
    EncVarintSize(v, t);
    if v >= 0x80 {
      Pow2Word();
      PowMonotone(32, 35);
      EncVarintLength(v, 5);
      if |e| == 5 {
        EncVarintLast(v, 4);
      }
      var s := (e + t)[1..];
      assert VarintSize(s) == |e| - 1;
      assert s[|e| - 2] == e[|e| - 1];
      Var32LoopAccepts(s, 7, e[0] % 0x80);
    }
  }

  lemma {:induction false} Accepted32(s: seq<byte>, v: nat, t: seq<byte>)
    requires 1 <= VarintSize(s) <= 10
    requires DecVarint(s) == Ok(v, t) && DecVarint32(s).Ok?
    ensures DecVarint32(s) == Ok(Low32(v), t)
    ensures v < 0x1_0000_0000 ==> DecVarint32(s) == Ok(v, t)
  {
    Var32RefinesVar64(s);
  }

  /** Unsigned 32-bit values survive the 32-bit decoder. */
  lemma {:induction false} Varint32RoundTrip(v: nat, t: seq<byte>)
    requires v < 0x1_0000_0000
    ensures DecVarint32(EncVarint(v) + t) == Ok(v, t)
  {
    var s := EncVarint(v) + t;
    assert 1 <= VarintSize(s) <= 10 by {
      EncVarintSize(v, t);
      EncVarintFits(v);
    }
    Varint32Accepts(v, t);
    VarintRoundTrip(v, t);
    Accepted32(s, v, t);
  }

  lemma {:induction false} Var32LoopStep(p: seq<byte>, b: byte, t: seq<byte>)
    requires 0 < |p| <= 4 && b >= 0x80
    ensures Var32Loop([b] + t, 7 * |p|, Low32(Base128(p)))
         == Var32Loop(t, 7 * |p + [b]|, Low32(Base128(p + [b])))
  {
    var s := [b] + t;
    assert s[1..] == t;
    assert 7 * |p + [b]| == 7 * |p| + 7;
    Var32Continues(s, 7 * |p|, Low32(Base128(p)));
    NextResultMeaning(p, b);
  }

  /** Groups that carry on are merged one after the other. */
  lemma {:induction false} Var32LoopPrefix(p: seq<byte>, q: seq<byte>, t: seq<byte>)
    requires 0 < |p| && |p| + |q| <= 5
    requires forall k :: 0 <= k < |q| ==> q[k] >= 0x80
    ensures Var32Loop(q + t, 7 * |p|, Low32(Base128(p)))
         == Var32Loop(t, 7 * |p + q|, Low32(Base128(p + q)))
    decreases |q|
  {
    if q == [] {
      assert q + t == t && p + q == p;
    } else {
      var b := q[0];
      assert q + t == [b] + (q[1..] + t);
      assert p + [b] + q[1..] == p + q;
      Var32LoopStep(p, b, q[1..] + t);
      Var32LoopPrefix(p + [b], q[1..], t);
    }
  }

  lemma {:induction false} LowWordSettled(p: seq<byte>, q: seq<byte>)
    requires 7 * |p| >= 32
    ensures Low32(Base128(p + q)) == Low32(Base128(p))
    decreases |q|
  {
    if q == [] {
      assert p + q == p;
    } else {
      var n := |q| - 1;
      LowWordSettled(p, q[..n]);
      HighGroupVanishes(p + q[..n], q[n]);
      assert p + q == p + q[..n] + [q[n]];
    }
  }

  /** The first `k` groups of a value that has more of them. */
  lemma {:induction false} EncVarintPrefix(v: nat, k: nat)
    requires v >= Pow2(7 * k)
    ensures |EncVarint(v)| > k
    ensures EncVarint(v)[k..] == EncVarint(v / Pow2(7 * k))
    ensures forall j :: 0 <= j < k ==> EncVarint(v)[j] >= 0x80
    decreases k
  {
    if k > 0 {
      Pow2Small();
      Pow2Add(7, 7 * (k - 1));
      AtLeastOnce(0x80, Pow2(7 * (k - 1)));
      DivDiv(v, 0x80, Pow2(7 * (k - 1)));
      EncVarintPrefix(v / 0x80, k - 1);
      var e := EncVarint(v);
      assert e[1..] == EncVarint(v / 0x80);
      assert e[k..] == e[1..][k - 1..];
      assert forall j :: 0 < j < k ==> e[j] == e[1..][j - 1];
    } else {
      assert v / Pow2(0) == v;
    }
  }

  /** Four 0xFF and a 0x01 extend the sign of a word that has its top bit set. */
  lemma {:induction false} SignBytesAccepted(result: nat, t: seq<byte>)
    requires 0x8000_0000 <= result < 0x1_0000_0000
    ensures Var32Loop([0xFF, 0xFF, 0xFF, 0xFF, 0x01] + t, 35, result) == Ok(result, t)
  {
    var s: seq<byte> := [0xFF, 0xFF, 0xFF, 0xFF, 0x01] + t;
    assert s[4..][1..] == t;
    assert Var32Loop(s[4..], 63, result) == Ok(result, t);
    assert Var32Loop(s[3..], 56, result) == Var32Loop(s[3..][1..], 63, result);
    assert s[3..][1..] == s[4..];
    assert Var32Loop(s[2..], 49, result) == Var32Loop(s[2..][1..], 56, result);
    assert s[2..][1..] == s[3..];
    assert Var32Loop(s[1..], 42, result) == Var32Loop(s[1..][1..], 49, result);
    assert s[1..][1..] == s[2..];
  }

  lemma {:induction false} SignExtensionBytes()
    ensures EncVarint(0x1FFF_FFFF) == [0xFF, 0xFF, 0xFF, 0xFF, 0x01]
  {
    assert EncVarint(1) == [1];
    assert EncVarint(0xFF) == [0xFF, 1];
    assert EncVarint(0x7FFF) == [0xFF, 0xFF, 1];
    assert EncVarint(0x3F_FFFF) == [0xFF, 0xFF, 0xFF, 1];
  }

  lemma {:induction false} Var32Overflows(s: seq<byte>, k: nat, x: nat)
    requires s != [] && 0x10 <= s[0] < 0x80 && k == 28 && x < 0x1_0000_0000
    ensures Var32Loop(s, k, x) == Err
  {
  }

  /** A fifth group with a bit above bit 31 is rejected. */
  lemma {:induction false} Var32LoopRejects(s: seq<byte>, bitpos: nat, result: nat)
    requires result < 0x1_0000_0000 && VarintSize(s) > 0
    requires bitpos + 7 * VarintSize(s) == 35 && s[VarintSize(s) - 1] >= 0x10
    ensures Var32Loop(s, bitpos, result) == Err
    decreases |s|
  {
    if s[0] >= 0x80 {
      Var32Continues(s, bitpos, result);
      Var32LoopRejects(s[1..], bitpos + 7, NextResult(result, s[0], bitpos));
    } else {
      Var32Overflows(s, bitpos, result);
    }
  }

  /** Below the fifth group there are 28 bits. */
  lemma {:induction false} FifthGroup(p: seq<byte>, b: byte)
    requires |p| == 4
    ensures Base128(p + [b]) < 0x1_0000_0000 <==> b % 0x80 < 0x10
    ensures Base128(p + [b]) >= 0x7_8000_0000 <==> b % 0x80 >= 0x78
  {
    Base128Append(p, b);
    Base128Bound(p);
    Pow2Word();
    assert 7 * |p| == 28;
    ScaledIsProduct(b % 0x80, 28);
  }

  lemma {:induction false} LastOfVarint(p: seq<byte>)
    requires IsVarint(p)
    ensures p[|p| - 1] < 0x80
    ensures forall k :: 0 <= k < |p| - 1 ==> p[k] >= 0x80
    decreases |p|
  {
    if |p| > 1 {
      LastOfVarint(p[1..]);
      assert forall k :: 0 < k < |p| ==> p[k] == p[1..][k - 1];
    }
  }

  lemma {:induction false} FitsWord(s: seq<byte>, n: nat)
    requires 1 <= n <= 5 && n <= |s|
    ensures Base128(s[..n]) < 0x1_0000_0000 <==> n < 5 || s[4] % 0x80 < 0x10
  {
    if n < 5 {
      Base128Bound(s[..n]);
      Pow2Word();
      PowMonotone(7 * n, 28);
    } else {
      assert s[..n] == s[..4] + [s[4]];
      FifthGroup(s[..4], s[4]);
    }
  }

  lemma {:induction false} LastByte(s: seq<byte>)
    requires VarintSize(s) > 0
    ensures s[VarintSize(s) - 1] < 0x80
    ensures s[VarintSize(s) - 1] % 0x80 == s[VarintSize(s) - 1]
  {
    VarintSizeAt(s, VarintSize(s));
    LastOfVarint(s[..VarintSize(s)]);
  }

  lemma {:induction false} Var32Accepts5(s: seq<byte>)
    requires 1 <= VarintSize(s) <= 5
    ensures DecVarint32(s).Ok? <==> VarintSize(s) < 5 || s[4] < 0x10
  {
    var n := VarintSize(s);
    if n > 1 {
      var t := s[1..];
      assert VarintSize(t) == n - 1 && t[n - 2] == s[n - 1];
      assert s[0] >= 0x80 && DecVarint32(s) == Var32Loop(t, 7, s[0] % 0x80);
      if n == 5 && s[4] >= 0x10 {
        Var32LoopRejects(t, 7, s[0] % 0x80);
      } else {
        Var32LoopAccepts(t, 7, s[0] % 0x80);
      }
    }
  }

  /** Up to five bytes, the 32-bit decoder accepts exactly the values that fit. */
  lemma {:induction false} Var32Exact(s: seq<byte>)
    requires 1 <= VarintSize(s) <= 5
    ensures DecVarint32(s).Ok? <==> Base128(s[..VarintSize(s)]) < 0x1_0000_0000
  {
    FitsWord(s, VarintSize(s));
    LastByte(s);
    Var32Accepts5(s);
  }

  /** A group past the fifth is zero or, below a word with its top bit set, the sign. */
  predicate ExtendsSign(b: byte, bitpos: nat, result: nat) {
    b % 0x80 == 0 || (result >= 0x8000_0000 && b == if bitpos < 63 then 0xFF else 0x01)
  }

  predicate SignOrZero(q: seq<byte>, bitpos: nat, result: nat) {
    forall k :: 0 <= k < |q| ==> ExtendsSign(q[k], bitpos + 7 * k, result)
  }

  lemma {:induction false} SignOrZeroStep(q: seq<byte>, bitpos: nat, result: nat)
    requires q != []
    ensures SignOrZero(q, bitpos, result) <==>
              ExtendsSign(q[0], bitpos, result) && SignOrZero(q[1..], bitpos + 7, result)
  {
    var r := q[1..];
    if ExtendsSign(q[0], bitpos, result) && SignOrZero(r, bitpos + 7, result) {
      forall k | 0 <= k < |q|
        ensures ExtendsSign(q[k], bitpos + 7 * k, result)
      {
        if k > 0 {
          assert ExtendsSign(r[k - 1], bitpos + 7 + 7 * (k - 1), result);
        }
      }
    }
    if SignOrZero(q, bitpos, result) {
      forall k | 0 <= k < |r|
        ensures ExtendsSign(r[k], bitpos + 7 + 7 * k, result)
      {
        assert ExtendsSign(q[k + 1], bitpos + 7 * (k + 1), result);
      }
    }
  }

  lemma {:induction false} Var32TailStep(s: seq<byte>, bitpos: nat, result: nat)
    requires s != [] && result < 0x1_0000_0000 && 35 <= bitpos <= 63
    ensures Var32Loop(s, bitpos, result).Ok? <==>
              ExtendsSign(s[0], bitpos, result) && (s[0] >= 0x80 ==> Var32Loop(s[1..], bitpos + 7, result).Ok?)
  {
    Var32Unfold(s, bitpos, result);
    TopBit(result);
    NoWrapAround(bitpos);
  }

  lemma {:induction false} Var32Tail(s: seq<byte>, bitpos: nat, result: nat)
    requires result < 0x1_0000_0000 && VarintSize(s) > 0
    requires bitpos >= 35 && bitpos + 7 * VarintSize(s) <= 70
    ensures Var32Loop(s, bitpos, result).Ok? <==> SignOrZero(s[..VarintSize(s)], bitpos, result)
    decreases |s|
  {
    var n := VarintSize(s);
    var q := s[..n];
    SignOrZeroStep(q, bitpos, result);
    Var32TailStep(s, bitpos, result);
    if s[0] >= 0x80 {
      assert q[1..] == s[1..][..n - 1];
      Var32Tail(s[1..], bitpos + 7, result);
    }
  }

  /** From six bytes on, only the bytes after the fifth decide: bits 32 to 34 go unchecked. */
  lemma {:induction false} Var32ExactLong(s: seq<byte>)
    requires 6 <= VarintSize(s) <= 10
    ensures DecVarint32(s).Ok? <==>
              SignOrZero(s[5..VarintSize(s)], 35, Low32(Base128(s[..5])))
  {
    var n := VarintSize(s);
    VarintSizeAt(s, n);
    LastOfVarint(s[..n]);
    assert forall k :: 0 <= k < 5 ==> s[k] == s[..n][k];
    var q, t := s[1..5], s[5..];
    VarintSizeSkips(s, 5);
    assert s[1..] == q + t && s[..5] == [s[0]] + q;
    FirstFiveGroups(s[0], q, t);
    Var32Tail(t, 35, Low32(Base128(s[..5])));
    assert t[..n - 5] == s[5..n];
  }

  lemma {:induction false} Base128Split(p: seq<byte>, q: seq<byte>)
    ensures Base128(p + q) == Base128(p) + Scaled(Base128(q), 7 * |p|)
    decreases |p|
  {
    if p == [] {
      assert p + q == q;
    } else {
      assert (p + q)[1..] == p[1..] + q;
      Base128Split(p[1..], q);
      Scaled128(Base128(q), 7 * (|p| - 1));
    }
  }

  /** No group adds anything. */
  predicate ZeroGroups(q: seq<byte>) {
    forall k :: 0 <= k < |q| ==> q[k] % 0x80 == 0
  }

  lemma {:induction false} ZeroGroupsMeaning(q: seq<byte>)
    ensures Base128(q) == 0 <==> ZeroGroups(q)
    decreases |q|
  {
    if q != [] {
      ZeroGroupsMeaning(q[1..]);
      if ZeroGroups(q[1..]) && q[0] % 0x80 == 0 {
        assert forall k :: 0 < k < |q| ==> q[k] == q[1..][k - 1];
      }
      if ZeroGroups(q) {
        assert forall k :: 0 <= k < |q[1..]| ==> q[1..][k] == q[k + 1];
      }
    }
  }

  const SIGN_BYTES: seq<byte> := [0xFF, 0xFF, 0xFF, 0xFF, 0x01]

  function Group(b: byte): nat {
    b % 0x80
  }

  lemma {:induction false} FiveGroups(q: seq<byte>)
    requires |q| == 5
    ensures Base128(q) == Group(q[0]) + 0x80 * Group(q[1]) + 0x4000 * Group(q[2])
                        + 0x20_0000 * Group(q[3]) + 0x1000_0000 * Group(q[4])
  {
    assert q[4..][1..] == [] && q[3..][1..] == q[4..] && q[2..][1..] == q[3..] && q[1..][1..] == q[2..];
    assert Base128(q[4..]) == Group(q[4]);
    assert Base128(q[3..]) == Group(q[3]) + 0x80 * Base128(q[4..]);
    assert Base128(q[2..]) == Group(q[2]) + 0x80 * Base128(q[3..]);
    assert Base128(q[1..]) == Group(q[1]) + 0x80 * Base128(q[2..]);
  }

  /** What an accepted tail stands for: nothing, the sign extension, or something between. */
  lemma {:induction false} TailMeaning(q: seq<byte>, result: nat)
    requires 1 <= |q| <= 5 && SignOrZero(q, 35, result)
    ensures Base128(q) <= 0x1FFF_FFFF
    ensures Base128(q) == 0x1FFF_FFFF <==> q == SIGN_BYTES
  {
    if |q| == 5 {
      FiveGroups(q);
      assert ExtendsSign(q[0], 35, result) && ExtendsSign(q[1], 42, result) && ExtendsSign(q[2], 49, result);
      assert ExtendsSign(q[3], 56, result) && ExtendsSign(q[4], 63, result);
      assert Group(q[0]) <= 0x7F && Group(q[1]) <= 0x7F && Group(q[2]) <= 0x7F && Group(q[3]) <= 0x7F;
      assert Group(q[4]) <= 1;
      if q[0] == q[1] == q[2] == q[3] == 0xFF && q[4] == 0x01 {
        assert q == SIGN_BYTES;
      }
    } else {
      Base128Bound(q);
      Pow2Word();
      PowMonotone(7 * |q|, 28);
    }
  }

  /** Above the first five groups the tail counts multiples of 2^35. */
  lemma {:induction false} TailCounts(s: seq<byte>, n: nat)
    requires 5 <= n <= |s|
    ensures Base128(s[..n]) == Base128(s[..5]) + 0x8_0000_0000 * Base128(s[5..n])
    ensures Base128(s[..5]) < 0x8_0000_0000
  {
    var p, q := s[..5], s[5..n];
    assert p + q == s[..n];
    assert 7 * |p| == 35;
    Base128Split(p, q);
    TimesPow35(Base128(q));
    Base128Bound(p);
  }

  lemma {:induction false} TimesPow35(x: nat)
    ensures Pow2(35) == 0x8_0000_0000 && Scaled(x, 35) == 0x8_0000_0000 * x
  {
    Pow2Word();
    Pow2Small();
    Pow2Add(28, 7);
    ScaledIsProduct(x, 35);
  }

  /** A 64-bit value that is a 32-bit one, unsigned or sign-extended. */
  predicate FitsWord32(v: nat) {
    v < 0x1_0000_0000 || v >= 0xFFFF_FFFF_8000_0000
  }

  /** When what five groups and a tail stand for fits. */
  lemma {:induction false} FitsByTail(low: nat, tail: nat)
    requires low < 0x8_0000_0000 && tail <= 0x1FFF_FFFF
    ensures low + 0x8_0000_0000 * tail < 0x1_0000_0000_0000_0000
    ensures FitsWord32(low + 0x8_0000_0000 * tail)
       <==> (tail == 0 && low < 0x1_0000_0000) || (tail == 0x1FFF_FFFF && low >= 0x7_8000_0000)
  {
  }

  lemma {:induction false} LongValueFits(s: seq<byte>, n: nat, result: nat)
    requires VarintSize(s) == n && 6 <= n <= 10 && SignOrZero(s[5..n], 35, result)
    ensures DecVarint(s) == Ok(Base128(s[..n]), s[n..])
    ensures FitsWord32(Base128(s[..n]))
       <==> (ZeroGroups(s[5..n]) && s[4] % 0x80 < 0x10) || (s[5..n] == SIGN_BYTES && s[4] % 0x80 >= 0x78)
  {
    TailCounts(s, n);
    TailMeaning(s[5..n], result);
    ZeroGroupsMeaning(s[5..n]);
    assert s[..5] == s[..4] + [s[4]];
    FifthGroup(s[..4], s[4]);
    FitsByTail(Base128(s[..5]), Base128(s[5..n]));
  }

  /** From six to ten bytes, exactly when the decoder accepts only what fits 32 bits: the tail fails
      its test, or is zero below a fifth group of four bits, or extends the sign of a fifth group
      that is all ones from bit 31 up. */
  lemma {:induction false} Var32DropsBits(s: seq<byte>)
    requires 6 <= VarintSize(s) <= 10
    ensures var tail, fifth := s[5..VarintSize(s)], s[4] % 0x80;
            DecVarint(s).Ok? &&
            ((DecVarint32(s).Ok? ==> FitsWord32(DecVarint(s).value))
             <==> !SignOrZero(tail, 35, Low32(Base128(s[..5])))
                  || (ZeroGroups(tail) && fifth < 0x10)
                  || (tail == SIGN_BYTES && fifth >= 0x78))
  {
    var n, result := VarintSize(s), Low32(Base128(s[..5]));
    Var32ExactLong(s);
    if SignOrZero(s[5..n], 35, result) {
      LongValueFits(s, n, result);
    }
  }

  /** A sixth byte of zero hides any overflow in the fifth group. */
  lemma {:induction false} FifthGroupLost(s: seq<byte>)
    requires VarintSize(s) == 6 && s[4] % 0x80 >= 0x10 && s[5] == 0x00
    ensures DecVarint(s).Ok? && DecVarint32(s).Ok? && !FitsWord32(DecVarint(s).value)
  {
    var tail := s[5..6];
    assert tail == [0x00] && tail != SIGN_BYTES;
    assert SignOrZero(tail, 35, Low32(Base128(s[..5])));
    Var32DropsBits(s);
  }

  lemma {:induction false} SixBytes(s: seq<byte>)
    requires |s| == 6 && s[5] < 0x80 && forall k :: 0 <= k < 5 ==> s[k] >= 0x80
    ensures VarintSize(s) == 6
  {
    VarintSizeSkips(s, 5);
  }

  /** One varint that is accepted although it stands for 2^32. */
  lemma {:induction false} Var32AcceptsTooMuch()
    ensures var s: seq<byte> := [0x80, 0x80, 0x80, 0x80, 0x90, 0x00];
            DecVarint(s).Ok? && DecVarint32(s).Ok? && !FitsWord32(DecVarint(s).value)
  {
    var s := Padded(5, 0)[4 := 0x90];
    FivePads();
    SixBytes(s);
    FifthGroupLost(s);
    assert s == [0x80, 0x80, 0x80, 0x80, 0x90, 0x00];
  }

  lemma {:induction false} FivePads()
    ensures Padded(5, 0) == [0x80, 0x80, 0x80, 0x80, 0x80, 0x00]
  {
    assert Padded(2, 0) == [0x80, 0x80, 0x00];
    assert Padded(4, 0) == [0x80, 0x80, 0x80, 0x80, 0x00];
  }

  // ----- varints that are too long -----

  /** The last byte `b` with `n` continuation bytes that add nothing in front of it. */
  function Padded(n: nat, b: byte): (s: seq<byte>)
    ensures |s| == n + 1
  {
    if n == 0 then [b] else [0x80] + Padded(n - 1, b)
  }

  lemma {:induction false} PaddedSize(n: nat, b: byte)
    requires b < 0x80
    ensures VarintSize(Padded(n, b)) == n + 1
  {
    if n > 0 {
      PaddedSize(n - 1, b);
      assert Padded(n, b)[1..] == Padded(n - 1, b);
    }
  }

  lemma {:induction false} ZeroMerged(bitpos: nat)
    ensures MergeGroup(0, 0x80, bitpos) == 0 && MergeGroup(0, 0x00, bitpos) == 0
  {
    ShlOfZero(bitpos, 32);
    OrZero(0);
  }

  lemma {:induction false} PaddedZeroLoop(n: nat, bitpos: nat)
    ensures Var32Loop(Padded(n, 0), bitpos, 0) == Ok(0, [])
    decreases n
  {
    var s := Padded(n, 0);
    ZeroMerged(bitpos);
    if n > 0 {
      assert s[1..] == Padded(n - 1, 0);
      PaddedZeroLoop(n - 1, (bitpos + 7) % 0x100);
    } else {
      assert s[1..] == [];
    }
  }

  /** The 32-bit decoder has no limit of ten bytes: it takes zero padded to any length, which the
      64-bit decoder rejects from eleven bytes on. */
  lemma {:induction false} Var32TakesPadding(n: nat)
    ensures DecVarint32(Padded(n, 0)) == Ok(0, [])
    ensures DecVarint(Padded(n, 0)).Ok? <==> n < 10
  {
    var s := Padded(n, 0);
    PaddedSize(n, 0);
    if n > 0 {
      assert s[1..] == Padded(n - 1, 0);
      PaddedZeroLoop(n - 1, 7);
    } else {
      assert s[1..] == [];
    }
  }

  lemma {:induction false} ModShift(x: nat, q: nat)
    ensures (x + 0x100 * q) % 0x100 == x % 0x100
    decreases q
  {
    if q > 0 {
      assert x + 0x100 * q == x + 0x100 * (q - 1) + 0x100;
      ModShift(x, q - 1);
    }
  }

  lemma {:induction false} ModStep(k: nat, n: nat)
    requires n > 0
    ensures ((k + 7) % 0x100 + 7 * (n - 1)) % 0x100 == (k + 7 * n) % 0x100
  {
    var r, q := (k + 7) % 0x100, (k + 7) / 0x100;
    assert k + 7 * n == r + 7 * (n - 1) + 0x100 * q;
    ModShift(r + 7 * (n - 1), q);
  }

  lemma {:induction false} PaddedLoop(n: nat, b: byte, bitpos: nat)
    requires b < 0x10 && bitpos < 0x100 && (bitpos + 7 * n) % 0x100 < 32
    ensures Var32Loop(Padded(n, b), bitpos, 0) == Ok(MergeGroup(0, b, (bitpos + 7 * n) % 0x100), [])
    decreases n
  {
    var s := Padded(n, b);
    ZeroMerged(bitpos);
    if n > 0 {
      ModStep(bitpos, n);
      assert s[1..] == Padded(n - 1, b);
      PaddedLoop(n - 1, b, (bitpos + 7) % 0x100);
    } else {
      assert s[1..] == [] && bitpos % 0x100 == bitpos;
    }
  }

  lemma {:induction false} MergedAlone(b: byte, k: nat)
    requires b < 0x80 && k <= 32
    ensures MergeGroup(0, b, k) == Low32(Scaled(b, k))
  {
    WordSize();
    OrShl(0, b, k, 32);
  }

  lemma {:induction false} WordSize()
    ensures Pow2(32) == 0x1_0000_0000
  {
    Pow2Word();
  }

  /** The bit position of the 32-bit decoder wraps around at 256: a group far behind the tenth byte is
      merged from bit 0 up again. The one behind 37 empty groups is taken for eight. */
  lemma {:induction false} Var32WrapsAround(n: nat, b: byte)
    requires n > 0 && b < 0x10 && 7 * n % 0x100 < 32
    ensures DecVarint32(Padded(n, b)) == Ok(Low32(Scaled(b, 7 * n % 0x100)), [])
    ensures DecVarint(Padded(n, b)).Ok? <==> n < 10
  {
    var s := Padded(n, b);
    assert s[1..] == Padded(n - 1, b);
    ModStep(0, n);
    PaddedLoop(n - 1, b, 7);
    MergedAlone(b, 7 * n % 0x100);
    PaddedSize(n, b);
  }

  /** The first five groups of a sign-extended value fill the low word. */
  lemma {:induction false} SignExtensionSplit(v: nat) returns (b: byte, q: seq<byte>)
    requires 0xFFFF_FFFF_8000_0000 <= v < 0x1_0000_0000_0000_0000
    ensures |q| == 4 && b >= 0x80 && forall k :: 0 <= k < 4 ==> q[k] >= 0x80
    ensures EncVarint(v) == [b] + q + [0xFF, 0xFF, 0xFF, 0xFF, 0x01]
    ensures Low32(Base128([b] + q)) == Low32(v)
  {
    var e := EncVarint(v);
    Pow2Word();
    Pow2Small();
    Pow2Add(28, 7);
    assert v / Pow2(35) == 0x1FFF_FFFF;
    EncVarintPrefix(v, 5);
    SignExtensionBytes();
    b, q := e[0], e[1..5];
    assert e == [b] + q + e[5..];
    EncVarintMeaning(v);
    LowWordSettled([b] + q, e[5..]);
  }

  lemma {:induction false} SignBitSet(v: nat)
    requires 0xFFFF_FFFF_8000_0000 <= v < 0x1_0000_0000_0000_0000
    ensures 0x8000_0000 <= Low32(v)
  {
    WrapMultiple(v - 0xFFFF_FFFF_0000_0000, 0x1_0000_0000, 0xFFFF_FFFF);
  }

  lemma {:induction false} OneGroup(b: byte)
    ensures Low32(Base128([b])) == b % 0x80
  {
    assert [b][1..] == [];
  }

  lemma {:induction false} FirstFiveGroups(b: byte, q: seq<byte>, t: seq<byte>)
    requires |q| == 4 && forall k :: 0 <= k < 4 ==> q[k] >= 0x80
    ensures Var32Loop(q + t, 7, b % 0x80) == Var32Loop(t, 35, Low32(Base128([b] + q)))
  {
    var p := [b];
    OneGroup(b);
    assert 7 * |p| == 7 && 7 * |p + q| == 35;
    Var32LoopPrefix(p, q, t);
  }

  lemma {:induction false} SignExtendedBytes(b: byte, q: seq<byte>, t: seq<byte>)
    requires b >= 0x80 && |q| == 4 && forall k :: 0 <= k < 4 ==> q[k] >= 0x80
    requires 0x8000_0000 <= Low32(Base128([b] + q))
    ensures DecVarint32([b] + (q + ([0xFF, 0xFF, 0xFF, 0xFF, 0x01] + t))).Ok?
  {
    var u: seq<byte> := [0xFF, 0xFF, 0xFF, 0xFF, 0x01] + t;
    FirstFiveGroups(b, q, u);
    SignBytesAccepted(Low32(Base128([b] + q)), t);
    var s := [b] + (q + u);
    assert s[1..] == q + u;
  }

  lemma {:induction false} Varint32AcceptsSignExtended(v: nat, t: seq<byte>)
    requires 0xFFFF_FFFF_8000_0000 <= v < 0x1_0000_0000_0000_0000
    ensures DecVarint32(EncVarint(v) + t).Ok?
  {
    var b, q := SignExtensionSplit(v);
    SignBitSet(v);
    SignExtendedBytes(b, q, t);
    assert EncVarint(v) + t == [b] + (q + ([0xFF, 0xFF, 0xFF, 0xFF, 0x01] + t));
  }

  /** Negative values, which are encoded as their sign extension to 64 bits, survive it too. */
  lemma {:induction false} Varint32SignExtended(v: nat, t: seq<byte>)
    requires 0xFFFF_FFFF_8000_0000 <= v < 0x1_0000_0000_0000_0000
    ensures DecVarint32(EncVarint(v) + t) == Ok(Low32(v), t)
  {
    var s := EncVarint(v) + t;
    assert 1 <= VarintSize(s) <= 10 by {
      EncVarintSize(v, t);
      EncVarintFits(v);
    }
    Varint32AcceptsSignExtended(v, t);
    VarintRoundTrip(v, t);
    Accepted32(s, v, t);
  }
}
