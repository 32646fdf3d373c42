/** Output streams (`pb_ostream_t`): a buffer of limited size, or none at all when only the size of
    the output is wanted. */
module OutputStream {
  import opened Wrappers
  import opened Bits
  import opened Varint
  import opened Serialize

  /** The state of a stream and its buffer at one moment. */
  datatype Snap = Snap(sizing: bool, state: nat, maxSize: nat, written: nat, bytes: seq<byte>) {
    /** What may still be written lies inside the buffer. */
    predicate Ok() {
      !sizing ==> written <= maxSize && written <= state && state - written + maxSize <= |bytes|
    }

    /** `n` more bytes are within the limit. */
    predicate Fits(n: nat) {
      sizing || written + n <= maxSize
    }
  }

  /** Between `a` and `b` an encoder ran that should emit `out`. It succeeds exactly when there is
      something to emit and it fits; it then has appended exactly that. In every outcome it has
      written nothing outside the space between the two cursors. */
  ghost predicate Emitted(a: Snap, b: Snap, ok: bool, out: Output) {
    && a.Ok() && b.Ok()
    && b.sizing == a.sizing && b.maxSize == a.maxSize && |b.bytes| == |a.bytes|
    && b.written >= a.written
    && ok == (out.Some? && a.Fits(|out.value|))
    && (ok ==> b.written == a.written + |out.value|)
    && (!a.sizing ==>
          && b.state == a.state + (b.written - a.written)
          && b.bytes[..a.state] == a.bytes[..a.state]
          && b.bytes[b.state..] == a.bytes[b.state..]
          && (ok ==> b.bytes[a.state..b.state] == out.value))
  }

  lemma {:induction false} SliceOfParts(x: seq<byte>, i: nat, j: nat, k: nat)
    requires i <= j <= k <= |x|
    ensures x[i..j] + x[j..k] == x[i..k]
  {
  }

  lemma {:induction false} PrefixKept(x: seq<byte>, y: seq<byte>, i: nat, j: nat)
    requires i <= j <= |x| && j <= |y| && x[..j] == y[..j]
    ensures x[i..j] == y[i..j] && x[..i] == y[..i]
  {
    assert x[i..j] == x[..j][i..] && y[i..j] == y[..j][i..];
    assert x[..i] == x[..j][..i] && y[..i] == y[..j][..i];
  }

  lemma {:induction false} SuffixKept(x: seq<byte>, y: seq<byte>, i: nat, j: nat)
    requires i <= j <= |x| && |x| == |y| && x[i..] == y[i..]
    ensures x[j..] == y[j..]
  {
    assert x[j..] == x[i..][j - i..] && y[j..] == y[i..][j - i..];
  }

  /** Emitting one output after another emits their concatenation. */
  lemma {:induction false} EmitNext(a: Snap, b: Snap, c: Snap, ok: bool, first: Output, second: Output)
    requires Emitted(a, b, true, first) && Emitted(b, c, ok, second)
    ensures Emitted(a, c, ok, Join(first, second))
  {
    if !a.sizing {
      PrefixKept(c.bytes, b.bytes, a.state, b.state);
      SuffixKept(b.bytes, a.bytes, b.state, c.state);
      SliceOfParts(c.bytes, a.state, b.state, c.state);
    }
  }

  /** An encoder that fails early fails as a whole. */
  lemma {:induction false} EmitFailed(a: Snap, b: Snap, first: Output, second: Output)
    requires Emitted(a, b, false, first)
    ensures Emitted(a, b, false, Join(first, second))
  {
  }

  lemma {:induction false} EmitNothing(a: Snap)
    requires a.Ok()
    ensures Emitted(a, a, true, Some([]))
  {
  }

  /** All groups of a value, each with its continuation bit. */
  function Groups(v: nat): seq<byte> {
    if v == 0 then [] else [v % 0x80 + 0x80] + Groups(v / 0x80)
  }

  /** Clearing the last continuation bit gives the varint. */
  lemma {:induction false} LastGroup(v: nat)
    requires v > 0
    ensures |Groups(v)| == |EncVarint(v)|
    ensures var n := |Groups(v)| - 1; Groups(v)[n := Groups(v)[n] % 0x80] == EncVarint(v)
    decreases v
  {
    if v < 0x80 {
      assert Groups(v / 0x80) == [];
      assert Groups(v) == [v % 0x80 + 0x80];
    } else {
      LastGroup(v / 0x80);
      var g, t := Groups(v), Groups(v / 0x80);
      assert g[1..] == t;
      assert g[|g| - 1 := g[|g| - 1] % 0x80] == [g[0]] + t[|t| - 1 := t[|t| - 1] % 0x80];
    }
  }

  /** The loop of `pb_encode_varint`. */
  method CollectGroups(buffer: array<byte>, value: nat) returns (i: nat)
    requires |Groups(value)| <= buffer.Length
    modifies buffer
    ensures i == |Groups(value)| && buffer[..i] == Groups(value)
  {
    i := 0;
    var rest := value;
    while rest > 0
      invariant i <= buffer.Length && buffer[..i] + Groups(rest) == Groups(value)
    {
      ghost var done := buffer[..i];
      GroupsStep(done, rest, Groups(value));
      buffer[i] := rest % 0x80 + 0x80;
      i := i + 1;
      assert buffer[..i] == done + [rest % 0x80 + 0x80];
      rest := rest / 0x80;
    }
    assert buffer[..i] + [] == buffer[..i];
  }

  lemma {:induction false} GroupsStep(done: seq<byte>, rest: nat, all: seq<byte>)
    requires rest > 0 && done + Groups(rest) == all
    ensures |done| < |all| && done + [rest % 0x80 + 0x80] + Groups(rest / 0x80) == all
  {
  }

  class OStream {
    const buf: array?<byte>
    var state: nat
    const maxSize: nat
    var bytesWritten: nat

    function Now(): Snap
      reads this, buf
    {
      Snap(buf == null, state, maxSize, bytesWritten, if buf == null then [] else buf[..])
    }

    ghost predicate Valid()
      reads this, buf
    {
      Now().Ok()
    }

    /** `pb_ostream_from_buffer` */
    constructor (buf: array<byte>, size: nat)
      requires size <= buf.Length
      ensures Valid() && this.buf == buf && state == 0 && maxSize == size && bytesWritten == 0
    {
      this.buf, state, maxSize, bytesWritten := buf, 0, size, 0;
    }

    /** `PB_OSTREAM_SIZING` */
    constructor Sizing()
      ensures Valid() && buf == null && bytesWritten == 0
    {
      buf, state, maxSize, bytesWritten := null, 0, 0, 0;
    }

    /** A substream that goes on where its parent is, with a limit of its own. */
    constructor Sub(parent: OStream, size: nat)
      requires parent.Valid() && parent.buf != null && parent.bytesWritten + size <= parent.maxSize
      ensures Valid() && buf == parent.buf && state == parent.state && maxSize == size && bytesWritten == 0
    {
      buf, state, maxSize, bytesWritten := parent.buf, parent.state, size, 0;
    }

    /** `buf_write` */
    method BufWrite(src: seq<byte>)
      requires buf != null && state + |src| <= buf.Length
      modifies this`state, buf
      ensures state == old(state) + |src|
      ensures buf[..] == old(buf[..state]) + src + old(buf[state + |src|..])
    {
      var dest := state;
      state := dest + |src|;
      for i := 0 to |src|
        invariant state == dest + |src|
        invariant buf[..dest] == old(buf[..state])
        invariant buf[dest..dest + i] == src[..i]
        invariant buf[dest + |src|..] == old(buf[state + |src|..])
      {
        buf[dest + i] := src[i];
        assert buf[dest..dest + i + 1] == buf[dest..dest + i] + [src[i]];
      }
      assert buf[..] == buf[..dest] + buf[dest..dest + |src|] + buf[dest + |src|..];
    }

    /** `pb_write`. A sizing stream only counts, so that it needs no bytes. */
    method Write(src: seq<byte>, count: nat) returns (ok: bool)
      requires Valid() && (buf != null ==> |src| == count)
      modifies this, buf
      ensures Valid()
      ensures buf != null ==> Emitted(old(Now()), Now(), ok, Some(src))
      ensures buf == null ==> ok && bytesWritten == old(bytesWritten) + count && state == old(state)
    {
      if buf != null {
        if bytesWritten + count > maxSize {
          return false;
        }
        ghost var before := buf[..];
        BufWrite(src);
        WrittenBetween(before, buf[..], state - count, src);
      }
      bytesWritten := bytesWritten + count;
      return true;
    }

    /** `pb_encode_varint`: groups are collected in a buffer of ten bytes, and the last one loses
        its continuation bit. */
    method EncodeVarint(value: nat) returns (ok: bool)
      requires Valid() && value < 0x1_0000_0000_0000_0000
      modifies this, buf
      ensures Emitted(old(Now()), Now(), ok, Some(EncVarint(value)))
    {
      if value <= 0x7F {
        ok := WriteBytes([value]);
        return;
      }
      EncVarintFits(value);
      LastGroup(value);
      var buffer := new byte[10];
      var i := CollectGroups(buffer, value);
      ghost var groups := buffer[..i];
      buffer[i - 1] := buffer[i - 1] % 0x80;
      assert buffer[..i] == groups[i - 1 := groups[i - 1] % 0x80];
      ok := WriteBytes(buffer[..i]);
    }

    /** `pb_write` of bytes that are at hand. */
    method WriteBytes(src: seq<byte>) returns (ok: bool)
      requires Valid()
      modifies this, buf
      ensures Emitted(old(Now()), Now(), ok, Some(src))
    {
      ok := Write(src, |src|);
    }
  }

  lemma {:induction false} WrittenBetween(before: seq<byte>, after: seq<byte>, at: nat, src: seq<byte>)
    requires at + |src| <= |before|
    requires after == before[..at] + src + before[at + |src|..]
    ensures |after| == |before| && after[..at] == before[..at]
    ensures after[at..at + |src|] == src && after[at + |src|..] == before[at + |src|..]
  {
  }
}
