/** Big-endian reads over a byte buffer: the model of the BitConverter helper
    and of `std::vector::at`, which every decoder uses to read its fields.

    A read of `width` bytes at offset `at` succeeds exactly when the buffer
    holds those bytes; otherwise it is an `OutOfRange` error, the model of the
    `std::out_of_range` thrown by the bounds-checked accessor.  The value read
    is characterised by the independent encoder `EncodeBE`: the bytes in the
    buffer are the big-endian encoding of the value.
 */
module Bytes {
  import opened Wrappers

  type Byte = b: int | 0 <= b < 0x100
  type Buffer = seq<Byte>

  /** 256^n: one more than the largest value n bytes can hold. */
  function Pow256(n: nat): (r: nat)
    ensures r >= 1
  {
    if n == 0 then 1 else 0x100 * Pow256(n - 1)
  }

  /** The unsigned value of a run of bytes, most significant byte first. */
  function DecodeBE(bytes: seq<Byte>): nat
  {
    if |bytes| == 0 then 0 else DecodeBE(bytes[..|bytes| - 1]) * 0x100 + bytes[|bytes| - 1]
  }

  /** The `width` low-order bytes of `v`, most significant first. */
  function EncodeBE(v: nat, width: nat): (bytes: seq<Byte>)
    ensures |bytes| == width
  {
    if width == 0 then [] else EncodeBE(v / 0x100, width - 1) + [v % 0x100]
  }

  lemma {:induction false} DecodeBEBound(bytes: seq<Byte>)
    ensures DecodeBE(bytes) < Pow256(|bytes|)
  {
    if |bytes| > 0 {
      var init := bytes[..|bytes| - 1];
      DecodeBEBound(init);
      assert DecodeBE(init) <= Pow256(|init|) - 1;
      assert DecodeBE(bytes) <= (Pow256(|init|) - 1) * 0x100 + 0xFF;
    }
  }

  /** Decoding the encoding of a value that fits gives the value back. */
  lemma {:induction false} DecodeEncode(v: nat, width: nat)
    requires v < Pow256(width)
    ensures DecodeBE(EncodeBE(v, width)) == v
  {
    if width > 0 {
      var e := EncodeBE(v, width);
      assert e[..width - 1] == EncodeBE(v / 0x100, width - 1);
      assert v / 0x100 < Pow256(width - 1);
      DecodeEncode(v / 0x100, width - 1);
    }
  }

  /** Encoding the decoded value of a run of bytes gives the run back. */
  lemma {:induction false} EncodeDecode(bytes: seq<Byte>)
    ensures EncodeBE(DecodeBE(bytes), |bytes|) == bytes
  {
    if |bytes| > 0 {
      var init := bytes[..|bytes| - 1];
      var d := DecodeBE(init);
      var last := bytes[|bytes| - 1];
      assert (d * 0x100 + last) / 0x100 == d;
      assert (d * 0x100 + last) % 0x100 == last;
      EncodeDecode(init);
      assert bytes == init + [last];
    }
  }

  /** A read of `width` bytes at offset `at`. */
  function ReadBE(buf: Buffer, at: nat, width: nat): (r: Result<nat>)
    ensures r.Ok? <==> at + width <= |buf|
    ensures r.Ok? ==> r.value < Pow256(width) && EncodeBE(r.value, width) == buf[at..at + width]
    ensures r.Err? ==> r.error == OutOfRange(at + width)
  {
    if at + width <= |buf| then
      DecodeBEBound(buf[at..at + width]);
      EncodeDecode(buf[at..at + width]);
      Ok(DecodeBE(buf[at..at + width]))
    else
      Err(OutOfRange(at + width))
  }

  /** A read sees only its own bytes: cutting the buffer after them does
      not change it. */
  lemma ReadBEPrefix(buf: Buffer, n: nat, at: nat, width: nat)
    requires at + width <= n <= |buf|
    ensures ReadBE(buf[..n], at, width) == ReadBE(buf, at, width)
  {
    assert buf[..n][at..at + width] == buf[at..at + width];
  }

  /** `rawData.at(at)` and `BitConverter::ToUInt8BE`. */
  function ReadU8(buf: Buffer, at: nat): (r: Result<nat>)
    ensures r.Ok? <==> at < |buf|
    ensures r.Ok? ==> r.value == buf[at] && FieldIs(buf, at, 1, r.value)
  {
    var v :- ReadBE(buf, at, 1);
    assert EncodeBE(v, 1) == [v];
    Ok(v)
  }

  /** `BitConverter::ToUInt16BE`. */
  function ReadU16BE(buf: Buffer, at: nat): (r: Result<nat>)
    ensures r.Ok? <==> at + 2 <= |buf|
    ensures r.Ok? ==> r.value < 0x1_0000 && EncodeBE(r.value, 2) == buf[at..at + 2]
    ensures r.Ok? ==> FieldIs(buf, at, 2, r.value)
  {
    ReadBE(buf, at, 2)
  }

  /** `BitConverter::ToUInt32BE`. */
  function ReadU32BE(buf: Buffer, at: nat): (r: Result<nat>)
    ensures r.Ok? <==> at + 4 <= |buf|
    ensures r.Ok? ==> r.value < 0x1_0000_0000 && EncodeBE(r.value, 4) == buf[at..at + 4]
    ensures r.Ok? ==> FieldIs(buf, at, 4, r.value)
  {
    ReadBE(buf, at, 4)
  }

  /** `BitConverter::ToUInt64BE`. */
  function ReadU64BE(buf: Buffer, at: nat): (r: Result<nat>)
    ensures r.Ok? <==> at + 8 <= |buf|
    ensures r.Ok? ==> r.value < 0x1_0000_0000_0000_0000 && EncodeBE(r.value, 8) == buf[at..at + 8]
  {
    ReadBE(buf, at, 8)
  }

  /** Reinterpretation of an unsigned 8-bit value as `int8_t`. */
  function ToS8(u: nat): (s: int)
    requires u < 0x100
    ensures -0x80 <= s < 0x80
    ensures (s + 0x100) % 0x100 == u
  {
    if u >= 0x80 then u - 0x100 else u
  }

  /** Reinterpretation of an unsigned 16-bit value as `int16_t`. */
  function ToS16(u: nat): (s: int)
    requires u < 0x1_0000
    ensures -0x8000 <= s < 0x8000
    ensures (s + 0x1_0000) % 0x1_0000 == u
  {
    if u >= 0x8000 then u - 0x1_0000 else u
  }

  /** Reinterpretation of an unsigned 32-bit value as `int32_t`. */
  function ToS32(u: nat): (s: int)
    requires u < 0x1_0000_0000
    ensures -0x8000_0000 <= s < 0x8000_0000
    ensures (s + 0x1_0000_0000) % 0x1_0000_0000 == u
  {
    if u >= 0x8000_0000 then u - 0x1_0000_0000 else u
  }

  /** `BitConverter::ToInt16BE`. */
  function ReadS16BE(buf: Buffer, at: nat): (r: Result<int>)
    ensures r.Ok? <==> at + 2 <= |buf|
    ensures r.Ok? ==> -0x8000 <= r.value < 0x8000
    ensures r.Ok? ==> EncodeBE((r.value + 0x1_0000) % 0x1_0000, 2) == buf[at..at + 2]
  {
    var u :- ReadU16BE(buf, at);
    Ok(ToS16(u))
  }

  /** `BitConverter::ToInt32BE`. */
  function ReadS32BE(buf: Buffer, at: nat): (r: Result<int>)
    ensures r.Ok? <==> at + 4 <= |buf|
    ensures r.Ok? ==> -0x8000_0000 <= r.value < 0x8000_0000
    ensures r.Ok? ==> EncodeBE((r.value + 0x1_0000_0000) % 0x1_0000_0000, 4) == buf[at..at + 4]
  {
    var u :- ReadU32BE(buf, at);
    Ok(ToS32(u))
  }

  /** Reading back what was written: a buffer holding the encoding of `v`
      at `at` yields `v`. */
  lemma ReadAfterEncode(prefix: Buffer, v: nat, width: nat, suffix: Buffer)
    requires v < Pow256(width)
    ensures ReadBE(prefix + EncodeBE(v, width) + suffix, |prefix|, width) == Ok(v)
  {
    var buf := prefix + EncodeBE(v, width) + suffix;
    assert buf[|prefix|..|prefix| + width] == EncodeBE(v, width);
    DecodeEncode(v, width);
  }

  /** The field of `width` bytes at `at` holds `v`: the bytes there are the
      big-endian encoding of `v`. */
  predicate FieldIs(buf: Buffer, at: nat, width: nat, v: nat) {
    at + width <= |buf| && v < Pow256(width) && EncodeBE(v, width) == buf[at..at + width]
  }

  /** A field holds one value only. */
  lemma FieldIsUnique(buf: Buffer, at: nat, width: nat, v: nat, w: nat)
    requires FieldIs(buf, at, width, v) && FieldIs(buf, at, width, w)
    ensures v == w
  {
    DecodeEncode(v, width);
    DecodeEncode(w, width);
  }

  /** A read returns exactly the value its field holds. */
  lemma ReadField(buf: Buffer, at: nat, width: nat, v: nat)
    requires FieldIs(buf, at, width, v)
    ensures ReadBE(buf, at, width) == Ok(v)
  {
    FieldIsUnique(buf, at, width, ReadBE(buf, at, width).value, v);
  }

  /** The two-byte field at `at` holds the signed value `v`: the bytes
      there are the big-endian two's complement encoding of `v`. */
  predicate S16FieldIs(buf: Buffer, at: nat, v: int) {
    -0x8000 <= v < 0x8000 && FieldIs(buf, at, 2, (v + 0x1_0000) % 0x1_0000)
  }

  /** A signed read returns exactly the value its field holds. */
  lemma ReadS16Field(buf: Buffer, at: nat, v: int)
    requires S16FieldIs(buf, at, v)
    ensures ReadS16BE(buf, at) == Ok(v)
  {
    ReadField(buf, at, 2, (v + 0x1_0000) % 0x1_0000);
  }

  /** The four-byte field at `at` holds the signed value `v`. */
  predicate S32FieldIs(buf: Buffer, at: nat, v: int) {
    -0x8000_0000 <= v < 0x8000_0000 && FieldIs(buf, at, 4, (v + 0x1_0000_0000) % 0x1_0000_0000)
  }

  /** A signed 32-bit read returns exactly the value its field holds. */
  lemma ReadS32Field(buf: Buffer, at: nat, v: int)
    requires S32FieldIs(buf, at, v)
    ensures ReadS32BE(buf, at) == Ok(v)
  {
    ReadField(buf, at, 4, (v + 0x1_0000_0000) % 0x1_0000_0000);
  }

  /** A signed read's value is the one its field holds. */
  lemma ReadS16IsField(buf: Buffer, at: nat)
    requires at + 2 <= |buf|
    ensures S16FieldIs(buf, at, ReadS16BE(buf, at).value)
  {
    assert Pow256(2) == 0x1_0000;
  }

  /** The big-endian halfword at `i`. */
  function HalfwordAt(buf: Buffer, i: nat): nat
    requires i + 2 <= |buf|
  {
    DecodeBE(buf[i..i + 2])
  }

  /** `n` consecutive `BitConverter::ToUInt16BE` reads at stride 2 from
      `at`; the first read past the end of the buffer fails. */
  function ReadHalfwords(buf: Buffer, at: nat, n: nat): (r: Result<seq<nat>>)
    ensures r.Ok? <==> n == 0 || at + 2 * n <= |buf|
    ensures r.Ok? ==> |r.value| == n
    ensures r.Ok? ==> forall k :: 0 <= k < n ==> r.value[k] == HalfwordAt(buf, at + 2 * k) && r.value[k] < 0x1_0000
    ensures r.Err? ==> r.error.OutOfRange?
    decreases n
  {
    if n == 0 then Ok([])
    else
      var h :- ReadU16BE(buf, at);
      DecodeEncode(h, 2);
      var rest :- ReadHalfwords(buf, at + 2, n - 1);
      assert forall k :: 1 <= k < n ==> at + 2 * k == (at + 2) + 2 * (k - 1);
      Ok([h] + rest)
  }

  /** The bytes of a run of halfwords, each big-endian. */
  function EncodeHalfwords(vs: seq<nat>): (bytes: seq<Byte>)
    ensures |bytes| == 2 * |vs|
  {
    if |vs| == 0 then [] else EncodeBE(vs[0], 2) + EncodeHalfwords(vs[1..])
  }

  /** Reading back encoded halfwords gives them back, whatever surrounds
      them. */
  lemma {:induction false} ReadEncodedHalfwords(prefix: Buffer, vs: seq<nat>, suffix: Buffer)
    requires forall k :: 0 <= k < |vs| ==> vs[k] < 0x1_0000
    ensures ReadHalfwords(prefix + EncodeHalfwords(vs) + suffix, |prefix|, |vs|) == Ok(vs)
    decreases |vs|
  {
    if |vs| > 0 {
      var buf := prefix + EncodeHalfwords(vs) + suffix;
      var head := EncodeBE(vs[0], 2);
      assert buf == prefix + head + (EncodeHalfwords(vs[1..]) + suffix);
      ReadAfterEncode(prefix, vs[0], 2, EncodeHalfwords(vs[1..]) + suffix);
      assert buf == (prefix + head) + EncodeHalfwords(vs[1..]) + suffix;
      ReadEncodedHalfwords(prefix + head, vs[1..], suffix);
      assert [vs[0]] + vs[1..] == vs;
    }
  }
}
