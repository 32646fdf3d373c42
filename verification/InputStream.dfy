/** Input streams over a byte buffer (`pb_istream_t`): reads, varints, skipping, and the
    substreams that confine a nested decode to its region. */
module InputStream {
  import opened Bits
  import opened Varint
  import opened Parse

  /** A read either fails where the rule fails, or yields its value and leaves its rest. */
  ghost predicate Agrees<T>(ok: bool, value: T, r: Parsed<T>, rest: seq<byte>) {
    ok == r.Ok? && (ok ==> value == r.value && rest == r.rest)
  }

  lemma {:induction false} NineGroups(p: seq<byte>)
    requires |p| < 10
    ensures Base128(p) < Pow2(7 * |p|) && Low64(Base128(p)) == Base128(p) && Pow2(64) == 0x1_0000_0000_0000_0000
  {
    Base128Bound(p);
    PowMonotone(7 * |p|, 63);
    Pow2Long();
  }

  /** Or-ing in the next group of a 64-bit varint. */
  lemma {:induction false} Merge64(p: seq<byte>, b: byte)
    requires |p| < 10
    ensures Or(Low64(Base128(p)), Shl(b % 0x80, 7 * |p|, 64)) == Low64(Base128(p + [b]))
  {
    NineGroups(p);
    OrShl(Base128(p), b % 0x80, 7 * |p|, 64);
    Base128Append(p, b);
  }

  /** Reading one more byte of a varint. */
  lemma {:induction false} VarintByte(s: seq<byte>, n: nat, b: byte, rest: seq<byte>)
    requires n < |s| && s[n..] == [b] + rest
    requires forall k :: 0 <= k < n ==> s[k] >= 0x80
    ensures s[n] == b && rest == s[n + 1..] && s[..n + 1] == s[..n] + [b]
    ensures b < 0x80 ==> VarintSize(s) == n + 1
  {
    assert s[n..][0] == b && s[n..][1..] == s[n + 1..] && ([b] + rest)[1..] == rest;
    VarintSizeSkips(s, n);
  }

  lemma {:induction false} Varint64Byte(s: seq<byte>, n: nat, b: byte, rest: seq<byte>)
    requires n < |s| && n < 10 && s[n..] == [b] + rest
    requires forall k :: 0 <= k < n ==> s[k] >= 0x80
    ensures Or(Low64(Base128(s[..n])), Shl(b % 0x80, 7 * n, 64)) == Low64(Base128(s[..n + 1]))
  {
    VarintByte(s, n, b, rest);
    Merge64(s[..n], b);
    assert 7 * |s[..n]| == 7 * n;
  }

  /** A varint that does not end in time, or at all. */
  lemma {:induction false} VarintUnfinished(s: seq<byte>, n: nat)
    requires n <= |s| && (n == 10 || n == |s|)
    requires forall k :: 0 <= k < n ==> s[k] >= 0x80
    ensures DecVarint(s) == Err
    ensures n == |s| ==> VarintSize(s) == 0
  {
    VarintSizeSkips(s, n);
  }

  lemma {:induction false} VarintFinished(s: seq<byte>, n: nat)
    requires VarintSize(s) == n && 1 <= n <= 10
    ensures DecVarint(s) == Ok(Low64(Base128(s[..n])), s[n..])
  {
  }

  /** `b & 0x70` */
  lemma {:induction false} HighBits(b: byte)
    requires b < 0x80
    ensures b / 0x10 % 8 != 0 <==> b >= 0x10
  {
  }

  /** The two parts of a stretch of bytes. */
  lemma {:induction false} SliceSplit(b: seq<byte>, lo: nat, size: nat, length: nat)
    requires lo + length <= |b| && size <= length
    ensures b[lo..lo + length][..size] == b[lo..lo + size]
    ensures b[lo..lo + length][size..] == b[lo + size..lo + size + (length - size)]
  {
  }

  lemma {:induction false} Varint32First(s: seq<byte>, b: byte, rest: seq<byte>)
    requires s == [b] + rest
    ensures DecVarint32(s) == if b < 0x80 then Ok(b, rest) else Var32Loop(rest, 7, b % 0x80)
  {
    assert s[1..] == rest;
  }

  /** Reading one more byte in the loop of the 32-bit decoder. */
  lemma {:induction false} Varint32Byte(s: seq<byte>, b: byte, rest: seq<byte>, k: nat, x: nat)
    requires s == [b] + rest && x < 0x1_0000_0000
    ensures var sign, k' := if k < 63 then 0xFF else 0x01, (k + 7) % 0x100;
            Var32Loop(s, k, x)
            == if k >= 32 && b % 0x80 != 0 && (x / 0x8000_0000 == 0 || b != sign) then Err
               else if b >= 0x80 then Var32Loop(rest, k', NextResult(x, b, k))
               else if k' == 35 && b >= 0x10 then Err
               else Ok(NextResult(x, b, k), rest)
  {
    assert s[1..] == rest;
  }

  class IStream {
    const buf: array<byte>
    var state: nat
    var bytesLeft: nat

    /** No read can go beyond the buffer. */
    ghost predicate Valid()
      reads this
    {
      state + bytesLeft <= buf.Length
    }

    /** The end of the region this stream may read. */
    ghost function End(): nat
      reads this
    {
      state + bytesLeft
    }

    function Remaining(): (s: seq<byte>)
      requires Valid()
      reads this, buf
      ensures |s| == bytesLeft
    {
      buf[state..state + bytesLeft]
    }

    /** What a parent has left behind a region that ends at `end`. */
    ghost function Behind(end: nat): seq<byte>
      requires end + bytesLeft <= buf.Length
      reads this, buf
    {
      buf[end..end + bytesLeft]
    }

    /** `pb_istream_from_buffer` */
    constructor (buf: array<byte>, size: nat)
      requires size <= buf.Length
      ensures Valid() && this.buf == buf && state == 0 && bytesLeft == size
    {
      this.buf, state, bytesLeft := buf, 0, size;
    }

    /** A copy of another stream's cursor with its own length. */
    constructor Sub(parent: IStream, size: nat)
      requires parent.Valid() && size <= parent.bytesLeft
      ensures Valid() && buf == parent.buf && state == parent.state && bytesLeft == size
    {
      this.buf, state, bytesLeft := parent.buf, parent.state, size;
    }

    /** `buf_read`: copies the bytes out, unless there is nowhere to copy them to. */
    method BufRead(dest: array?<byte>, count: nat)
      requires state + count <= buf.Length
      requires dest != null ==> count <= dest.Length && dest != buf
      modifies this`state, dest
      ensures state == old(state) + count
      ensures buf[..] == old(buf[..])
      ensures dest != null ==> dest[..count] == old(buf[..])[old(state)..old(state) + count]
      ensures dest != null ==> dest[count..] == old(dest[count..])
    {
      var source := state;
      state := state + count;
      if dest != null {
        for i := 0 to count
          invariant forall k :: 0 <= k < i ==> dest[k] == buf[source + k]
          invariant dest[count..] == old(dest[count..])
          invariant state == old(state) + count
        {
          dest[i] := buf[source + i];
        }
      }
    }

    /** `pb_read` */
    method Read(dest: array?<byte>, count: nat) returns (ok: bool)
      requires Valid()
      requires dest != null ==> count <= dest.Length && dest != buf
      modifies this, dest
      ensures Valid() && End() == old(End()) && state >= old(state)
      ensures ok == Take(old(Remaining()), count).Ok?
      ensures ok ==> Remaining() == Take(old(Remaining()), count).rest
      ensures ok && dest != null ==> dest[..count] == Take(old(Remaining()), count).value
      ensures dest != null ==> dest[count..] == old(dest[count..])
      ensures !ok ==> state == old(state)
    {
      if bytesLeft < count {
        return false;
      }
      ghost var b, lo, length := buf[..], state, bytesLeft;
      SliceSplit(b, lo, count, length);
      BufRead(dest, count);
      bytesLeft := bytesLeft - count;
      assert Remaining() == b[lo + count..lo + count + (length - count)];
      return true;
    }

    /** `pb_readbyte` */
    method ReadByte() returns (ok: bool, b: byte)
      requires Valid()
      modifies this
      ensures Valid() && End() == old(End()) && state >= old(state)
      ensures ok == (old(bytesLeft) > 0)
      ensures ok ==> [b] + Remaining() == old(Remaining()) && bytesLeft == old(bytesLeft) - 1
      ensures !ok ==> state == old(state)
    {
      b := 0;
      if bytesLeft == 0 {
        return false, b;
      }
      b := buf[state];
      state := state + 1;
      bytesLeft := bytesLeft - 1;
      return true, b;
    }

    /** `pb_decode_varint` */
    method DecodeVarint() returns (ok: bool, dest: nat)
      requires Valid()
      modifies this
      ensures Valid() && End() == old(End()) && state >= old(state)
      ensures Agrees(ok, dest, DecVarint(old(Remaining())), Remaining())
    {
      var bitpos: nat, result: nat, more := 0, 0, true;
      ghost var s, n := Remaining(), 0;
      assert s[..0] == [] && s[0..] == s;
      while more
        invariant Valid() && End() == old(End()) && state >= old(state)
        invariant n <= |s| && n <= 10 && Remaining() == s[n..] && bitpos == 7 * n
        invariant result == Low64(Base128(s[..n]))
        invariant more ==> forall k :: 0 <= k < n ==> s[k] >= 0x80
        invariant !more ==> VarintSize(s) == n && n > 0
        decreases bytesLeft, more
      {
        if bitpos >= 64 {
          VarintUnfinished(s, n);
          return false, 0;
        }
        var got, b := ReadByte();
        if !got {
          VarintUnfinished(s, n);
          return false, 0;
        }
        VarintByte(s, n, b, Remaining());
        Varint64Byte(s, n, b, Remaining());
        result := Or(result, Shl(b % 0x80, bitpos, 64));
        bitpos := bitpos + 7;
        n := n + 1;
        more := b >= 0x80;
      }
      VarintFinished(s, n);
      return true, result;
    }

    /** `pb_decode_varint32` */
    method DecodeVarint32() returns (ok: bool, dest: nat)
      requires Valid()
      modifies this
      ensures Valid() && End() == old(End()) && state >= old(state)
      ensures Agrees(ok, dest, DecVarint32(old(Remaining())), Remaining())
    {
      ghost var s := Remaining();
      ghost var spec := DecVarint32(s);
      var got, b := ReadByte();
      if !got {
        return false, 0;
      }
      Varint32First(s, b, Remaining());
      if b < 0x80 {
        return true, b;
      }
      var bitpos: nat, result: nat, more := 7, b % 0x80, true;
      while more
        invariant Valid() && End() == old(End()) && state >= old(state) && result < 0x1_0000_0000
        invariant more ==> spec == Var32Loop(Remaining(), bitpos, result)
        invariant !more ==> b < 0x80 && spec == (if bitpos == 35 && b >= 0x10 then Err else Ok(result, Remaining()))
        decreases bytesLeft, more
      {
        s := Remaining();
        got, b := ReadByte();
        if !got {
          assert s == [] && spec == Err;
          return false, 0;
        }
        Varint32Byte(s, b, Remaining(), bitpos, result);
        if bitpos >= 32 {
          var signExtension := if bitpos < 63 then 0xFF else 0x01;
          if b % 0x80 != 0 && (result / 0x8000_0000 == 0 || b != signExtension) {
            assert spec == Err;
            return false, 0;
          }
        } else {
          result := MergeGroup(result, b, bitpos);
        }
        bitpos := (bitpos + 7) % 0x100;
        more := b >= 0x80;
      }
      HighBits(b);
      if bitpos == 35 && b / 0x10 % 8 != 0 {
        assert spec == Err;
        return false, 0;
      }
      assert spec == Ok(result, Remaining());
      return true, result;
    }

    /** `pb_skip_varint` */
    method SkipVarint() returns (ok: bool)
      requires Valid()
      modifies this
      ensures Valid() && End() == old(End()) && state >= old(state)
      ensures Agrees(ok, (), Parse.SkipVarint(old(Remaining())), Remaining())
    {
      ghost var s, n := Remaining(), 0;
      var more := true;
      assert s[0..] == s;
      while more
        invariant Valid() && End() == old(End()) && state >= old(state)
        invariant n <= |s| && Remaining() == s[n..]
        invariant more ==> forall k :: 0 <= k < n ==> s[k] >= 0x80
        invariant !more ==> VarintSize(s) == n && n > 0
        decreases bytesLeft, more
      {
        var got, b := ReadByte();
        if !got {
          VarintUnfinished(s, n);
          return false;
        }
        VarintByte(s, n, b, Remaining());
        n := n + 1;
        more := b >= 0x80;
      }
      return true;
    }

    /** `pb_skip_string` */
    method SkipString() returns (ok: bool)
      requires Valid()
      modifies this
      ensures Valid() && End() == old(End()) && state >= old(state)
      ensures ok == TakeString(old(Remaining())).Ok?
      ensures ok ==> Remaining() == TakeString(old(Remaining())).rest
    {
      var got, length := DecodeVarint32();
      if !got {
        return false;
      }
      ok := Read(null, length);
    }

    /** `pb_decode_tag`. A zero key is reported as the end of the message, like the end of the region. */
    method DecodeTag() returns (ok: bool, wireType: nat, tag: nat, eof: bool)
      requires Valid()
      modifies this
      ensures Valid() && End() == old(End()) && state >= old(state)
      ensures var r := DecVarint32(old(Remaining()));
              && ok == (r.Ok? && r.value != 0)
              && eof == (old(bytesLeft) == 0 || (r.Ok? && r.value == 0))
              && (r.Ok? ==> Remaining() == r.rest)
              && (ok ==> tag == r.value / 8 && wireType == r.value % 8)
    {
      wireType, tag, eof := 0, 0, bytesLeft == 0;
      var got, temp := DecodeVarint32();
      if !got {
        return false, wireType, tag, eof;
      }
      if temp == 0 {
        return false, wireType, tag, true;
      }
      return true, temp % 8, temp / 8, eof;
    }

    /** `pb_skip_field` */
    method SkipField(wireType: nat) returns (ok: bool)
      requires Valid()
      modifies this
      ensures Valid() && End() == old(End()) && state >= old(state)
      ensures Agrees(ok, (), Parse.SkipField(wireType, old(Remaining())), Remaining())
    {
      if wireType == WT_VARINT {
        ok := SkipVarint();
      } else if wireType == WT_64BIT {
        ok := Read(null, 8);
      } else if wireType == WT_STRING {
        ok := SkipString();
      } else if wireType == WT_32BIT {
        ok := Read(null, 4);
      } else {
        return false;
      }
    }

    /** Hands the first `size` bytes over to a stream of their own. */
    method SplitOff(size: nat) returns (sub: IStream)
      requires Valid() && size <= bytesLeft
      modifies this
      ensures Valid() && fresh(sub) && sub.Valid() && sub.buf == buf
      ensures sub.state == state == old(state) && sub.bytesLeft == size && bytesLeft == old(bytesLeft) - size
      ensures sub.Remaining() == old(Remaining())[..size]
      ensures Behind(sub.End()) == old(Remaining())[size..]
    {
      ghost var b, lo, length := buf[..], state, bytesLeft;
      SliceSplit(b, lo, size, length);
      sub := new IStream.Sub(this, size);
      bytesLeft := bytesLeft - size;
      assert sub.Remaining() == b[lo..lo + size];
      assert Behind(lo + size) == b[lo + size..lo + size + (length - size)];
    }

    /** `pb_make_string_substream`: the length prefix opens a region of its own; the parent keeps
        what lies behind it. */
    method MakeSubstream() returns (ok: bool, sub: IStream?)
      requires Valid()
      modifies this
      ensures Valid() && End() <= old(End()) && state >= old(state)
      ensures ok == TakeString(old(Remaining())).Ok?
      ensures ok ==>
                && sub != null && fresh(sub) && sub.Valid() && sub.buf == buf
                && sub.state == state && sub.End() + bytesLeft == old(End())
                && sub.Remaining() == TakeString(old(Remaining())).value
                && sub.bytesLeft < old(bytesLeft)
                && Behind(sub.End()) == TakeString(old(Remaining())).rest
      ensures !ok ==> sub == null
    {
      ghost var s := Remaining();
      var got, size := DecodeVarint32();
      if !got {
        return false, null;
      }
      assert TakeString(s) == Take(Remaining(), size);
      if bytesLeft < size {
        return false, null;
      }
      sub := SplitOff(size);
      return true, sub;
    }

    /** `pb_close_string_substream`: skips what the child left and takes over its position. */
    method CloseSubstream(sub: IStream) returns (ok: bool)
      requires sub != this && sub.Valid() && sub.buf == buf
      requires sub.End() + bytesLeft <= buf.Length
      modifies this, sub
      ensures ok && Valid()
      ensures state == old(sub.End()) && bytesLeft == old(bytesLeft)
      ensures Remaining() == old(Behind(sub.End()))
    {
      if sub.bytesLeft > 0 {
        var skipped := sub.Read(null, sub.bytesLeft);
        if !skipped {
          return false;
        }
      }
      state := sub.state;
      return true;
    }
  }
}
