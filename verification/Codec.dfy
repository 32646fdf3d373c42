/** The codec over buffers, as its users call it. */
module Codec {
  import opened Wrappers
  import opened Bits
  import opened Varint
  import opened Descriptor
  import opened Parse
  import opened Serialize
  import opened RoundTrip
  import opened Sizes
  import opened Normal
  import opened Theorems
  import opened Merge
  import opened InputStream
  import opened Decoder
  import opened OutputStream
  import opened Encoder

  /** Encoding into a buffer succeeds exactly when the message has an encoding and it fits; the
      front of the buffer then holds it. Nothing behind what was written is touched. */
  method EncodeToBuffer(buf: array<byte>, size: nat, fields: seq<Field>, slots: seq<Slot>)
    returns (ok: bool, written: nat)
    requires size <= buf.Length
    requires ValidFields(fields) && Shaped(fields, slots) && Sized(SIZE_LIMIT, fields, slots)
    modifies buf
    ensures ok == (SerMsg(fields, slots).Some? && |SerMsg(fields, slots).value| <= size)
    ensures written <= size && buf[written..] == old(buf[written..])
    ensures ok ==> buf[..written] == SerMsg(fields, slots).value
  {
    var stream := new OStream(buf, size);
    ghost var before := stream.Now();
    ok := EncodeMessage(stream, fields, slots);
    written := stream.bytesWritten;
    ghost var after := stream.Now();
    assert buf[..written] == after.bytes[before.state..after.state];
  }

  /** Decoding a buffer consumes it from the front and never reads behind `size`. */
  method DecodeFromBuffer(buf: array<byte>, size: nat, fields: seq<Field>)
    returns (ok: bool, slots: seq<Slot>, left: nat)
    requires size <= buf.Length && ValidFields(fields)
    ensures left <= size
    ensures Agrees(ok, slots, Parse.Decode(fields, buf[..size]), buf[size - left..size])
  {
    var stream := new IStream(buf, size);
    assert stream.Remaining() == buf[..size];
    ok, slots := DecodeMessage(stream, fields);
    left := stream.bytesLeft;
  }

  /** `pb_decode_delimited`: a message behind its length. */
  method DecodeDelimited(s: IStream, fields: seq<Field>) returns (ok: bool, slots: seq<Slot>)
    requires s.Valid() && ValidFields(fields)
    modifies s
    ensures s.Valid() && (ok ==> s.End() == old(s.End()))
    ensures var r := TakeString(old(s.Remaining()));
            && ok == (r.Ok? && Parse.Decode(fields, r.value).Ok?)
            && (ok ==> slots == Parse.Decode(fields, r.value).value && s.Remaining() == r.rest)
  {
    ghost var r := TakeString(s.Remaining());
    var got, sub := s.MakeSubstream();
    if !got {
      return false, [];
    }
    ghost var end := sub.End();
    ok, slots := DecodeMessage(sub, fields);
    assert s.Behind(end) == r.rest;
    var closed := s.CloseSubstream(sub);
  }

  /** `pb_encode_nullterminated` */
  method EncodeNullTerminated(s: OStream, fields: seq<Field>, slots: seq<Slot>) returns (ok: bool)
    requires s.Valid() && ValidFields(fields) && Shaped(fields, slots) && Sized(SIZE_LIMIT, fields, slots)
    modifies s, s.buf
    ensures Emitted(old(s.Now()), s.Now(), ok, Join(SerMsg(fields, slots), Some([0])))
  {
    ghost var s0, body, zero: Output := s.Now(), SerMsg(fields, slots), Some([0]);
    ok := EncodeMessage(s, fields, slots);
    ghost var s1 := s.Now();
    if !ok {
      EmitFailed(s0, s1, body, zero);
      return;
    }
    ok := s.WriteBytes([0]);
    EmitNext(s0, s1, s.Now(), ok, body, zero);
  }

  /** Encoding into a buffer and decoding the bytes written succeeds exactly when the message has an
      encoding, it fits and its strings are terminated; the struct comes back in normal form, and
      unchanged exactly when it was well formed. */
  method EncodeThenDecode(buf: array<byte>, fields: seq<Field>, slots: seq<Slot>) returns (ok: bool, slots': seq<Slot>)
    requires ValidFields(fields) && Shaped(fields, slots)
    requires Sized(LENGTH_LIMIT, fields, slots) || (Sized(SIZE_LIMIT, fields, slots) && buf.Length < LENGTH_LIMIT)
    modifies buf
    ensures ok <==>
              SerMsg(fields, slots).Some? && |SerMsg(fields, slots).value| <= buf.Length && Terminated(fields, slots)
    ensures ok ==> slots' == NormalStruct(fields, slots)
    ensures (ok && slots' == slots)
        <==> SerMsg(fields, slots).Some? && |SerMsg(fields, slots).value| <= buf.Length && WellFormed(fields, slots)
  {
    if Sized(LENGTH_LIMIT, fields, slots) {
      SizedUpTo(LENGTH_LIMIT, SIZE_LIMIT, fields, slots);
    }
    var encoded, written := EncodeToBuffer(buf, buf.Length, fields, slots);
    if !encoded {
      return false, slots;
    }
    var left;
    ok, slots', left := DecodeFromBuffer(buf, written, fields);
    if !Sized(LENGTH_LIMIT, fields, slots) {
      SizedIfBelow(LENGTH_LIMIT, fields, slots);
    }
    DecodesExactly(fields, slots);
  }

  /** A delimited message is read back whole, whatever follows it. */
  lemma {:induction false} DelimitedRoundTrip(fields: seq<Field>, slots: seq<Slot>, t: seq<byte>)
    requires ValidFields(fields) && WellFormed(fields, slots) && Shaped(fields, slots)
    requires SerMsg(fields, slots).Some? && |SerMsg(fields, slots).value| < LENGTH_LIMIT
    ensures var r := TakeString(SerDelimited(fields, slots).value + t);
            && r == Ok(SerMsg(fields, slots).value, t)
            && Parse.Decode(fields, r.value) == Ok(slots, [])
  {
    TakeDelimited(SerMsg(fields, slots).value, t);
    SizedIfBelow(LENGTH_LIMIT, fields, slots);
    MessageRoundTrip(fields, slots);
  }

  /** So is a message that ends with a zero byte: decoding stops there. */
  lemma {:induction false} NullTerminatedRoundTrip(fields: seq<Field>, slots: seq<Slot>, t: seq<byte>)
    requires ValidFields(fields) && WellFormed(fields, slots) && Shaped(fields, slots)
    requires SerMsg(fields, slots).Some? && Sized(LENGTH_LIMIT, fields, slots)
    ensures Parse.Decode(fields, SerMsg(fields, slots).value + [0] + t) == Ok(slots, t)
  {
    var s := SerMsg(fields, slots).value;
    var seen := MsgRoundTrip(fields, slots, 0, {});
    assert Mixed(fields, slots, 0) == Defaults(fields);
    assert s + [0] + t == s + ([0] + t);
    LoopExtends(fields, s, [0] + t, Defaults(fields), {});
    assert ([0] + t)[1..] == t;
    LoopEnds(fields, [0] + t, slots, seen);
  }
}
