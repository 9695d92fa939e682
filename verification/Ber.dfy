/**
 Tag-length-value framing (internal/berutil/berutil.go): definite lengths in
 the minimal form on encode, one to four length octets on decode.
 */
module Ber {
  import opened Bytes
  import opened Results

  /** Contents at or above this size have a length field the decoder refuses. */
  const MAX_CONTENT := 0x100_0000

  datatype Length = Length(value: nat, consumed: nat)

  datatype Tlv = Tlv(tag: Byte, content: seq<Byte>, consumed: nat)

  /** Definite-form length (X.690 section 8.1.3). */
  function EncodeLength(l: nat): (bs: seq<Byte>)
  {
    if l < 0x80 then [l] else [0x80 + ByteCount(l) % 0x80] + Fixed(l, ByteCount(l))
  }

  function LengthSize(l: nat): nat
  {
    if l < 0x80 then 1 else 1 + ByteCount(l)
  }

  function EncodeTLV(tag: Byte, content: seq<Byte>): (bs: seq<Byte>)
  {
    [tag] + EncodeLength(|content|) + content
  }

  /** Total size of a TLV with a content of n octets. */
  function TLVSize(n: nat): nat
  {
    1 + LengthSize(n) + n
  }

  function DecodeLength(data: seq<Byte>): (r: Result<Length>)
    ensures r.Ok? ==> 1 <= r.value.consumed <= |data|
  {
    if data == [] then Err
    else if data[0] < 128 then Ok(Length(data[0], 1))
    else
      var numBytes := data[0] % 128;
      if numBytes == 0 || numBytes > 3 then Err
      else if |data| < 1 + numBytes then Err
      else Ok(Length(ToNat(data[1..1 + numBytes]), 1 + numBytes))
  }

  function DecodeTLVAt(data: seq<Byte>, offset: int): (r: Result<Tlv>)
    ensures r.Ok? ==> 0 <= offset
                      && 2 <= r.value.consumed <= |data| - offset
                      && |r.value.content| <= r.value.consumed - 2
  {
    if offset < 0 || offset >= |data| then Err
    else
      var len :- DecodeLength(data[offset + 1..]);
      var start := offset + 1 + len.consumed;
      var end := start + len.value;
      if end > |data| then Err
      else Ok(Tlv(data[offset], data[start..end], end - offset))
  }

  /** The TLV at the front of data. */
  function DecodeTLV(data: seq<Byte>): (r: Result<Tlv>)
    ensures r.Ok? ==> 2 <= r.value.consumed <= |data| && |r.value.content| <= r.value.consumed - 2
  {
    DecodeTLVAt(data, 0)
  }

  // ----- lengths

  /** The counting and the shifting loop of AppendLength produce the minimal definite form. */
  method AppendLength(buf: seq<Byte>, l: int) returns (r: seq<Byte>)
    ensures r == buf + EncodeLength(if l > 0 then l else 0)
  {
    var u: nat := if l > 0 then l else 0;
    if u < 0x80 {
      return buf + [u];
    }
    var n := CountOctets(u);
    var octets := AppendFixed([], u, n);
    r := buf + ([0x80 + n % 0x80] + octets);
  }

  /** The counting loop: one round for each octet shifted out. */
  method CountOctets(u: nat) returns (n: nat)
    ensures n == ByteCount(u)
  {
    n := 0;
    var v := u;
    while v > 0
      invariant n + ByteCount(v) == ByteCount(u)
    {
      v := v / 256;
      n := n + 1;
    }
  }

  /** The appending loop, high octet first: the n low octets of u. */
  method AppendFixed(buf: seq<Byte>, u: int, n: nat) returns (r: seq<Byte>)
    ensures r == buf + Fixed(u, n)
  {
    r := buf;
    ghost var octets := Fixed(u, n);
    for i := n downto 0
      invariant r == buf + octets[..n - i]
    {
      FixedAt(u, n, n - 1 - i);
      r := r + [Shr8(u, i) % 256];
    }
  }

  /** The accumulator loop of DecodeLength computes DecodeLength. */
  method ScanLength(data: seq<Byte>) returns (r: Result<Length>)
    ensures r == DecodeLength(data)
  {
    if |data| == 0 {
      return Err;
    }
    var b := data[0];
    if b < 128 {
      return Ok(Length(b, 1));
    }
    var numBytes := b % 128;
    if numBytes == 0 || numBytes > 3 || |data| < 1 + numBytes {
      return Err;
    }
    var l: nat := 0;
    for i := 0 to numBytes
      invariant l == ToNat(data[1..1 + i])
    {
      assert data[1..2 + i][..i] == data[1..1 + i];
      l := l * 256 + data[1 + i];
    }
    return Ok(Length(l, 1 + numBytes));
  }

  lemma EncodeLengthSize(l: nat)
    ensures |EncodeLength(l)| == LengthSize(l)
  {
  }

  lemma LengthSizeValues(l: nat)
    ensures LengthSize(l) >= 1
    ensures l < 0x80 ==> LengthSize(l) == 1
    ensures l < 0x100 ==> LengthSize(l) <= 2
    ensures l < 0x1_0000 <==> LengthSize(l) <= 3
    ensures l < 0x100_0000 <==> LengthSize(l) <= 4
  {
    Pow256Values();
    ByteCountLeast(l, 1);
    ByteCountLeast(l, 2);
    ByteCountLeast(l, 3);
  }

  lemma LengthSizeMonotone(a: nat, b: nat)
    requires a <= b
    ensures LengthSize(a) <= LengthSize(b)
  {
    ByteCountLeast(a, ByteCount(b));
    ByteCountLeast(b, ByteCount(b));
  }

  lemma LongForm(l: nat, rest: seq<Byte>)
    requires 0x80 <= l
    requires ByteCount(l) < 0x80
    ensures |EncodeLength(l)| == 1 + ByteCount(l)
    ensures (EncodeLength(l) + rest)[0] == 0x80 + ByteCount(l)
    ensures (EncodeLength(l) + rest)[1..1 + ByteCount(l)] == Fixed(l, ByteCount(l))
  {
    var k := ByteCount(l);
    var octets := Fixed(l, k);
    assert EncodeLength(l) == [0x80 + k] + octets;
  }

  /** Below 2^24 a length survives encoding, whatever follows it. */
  lemma LengthRoundTrip(l: nat, rest: seq<Byte>)
    requires l < MAX_CONTENT
    ensures DecodeLength(EncodeLength(l) + rest) == Ok(Length(l, LengthSize(l)))
  {
    if l >= 0x80 {
      var k := ByteCount(l);
      LengthSizeValues(l);
      LongForm(l, rest);
      ByteCountLeast(l, k);
      ToNatFixed(l, k);
    }
  }

  /** A decoded length is below 2^24 and was not written in fewer octets than the minimal form. */
  lemma LengthShortest(data: seq<Byte>)
    requires DecodeLength(data).Ok?
    ensures DecodeLength(data).value.value < MAX_CONTENT
    ensures LengthSize(DecodeLength(data).value.value) <= DecodeLength(data).value.consumed
  {
    if data[0] >= 128 {
      var numBytes := data[0] % 128;
      var l := ToNat(data[1..1 + numBytes]);
      ToNatBound(data[1..1 + numBytes]);
      ByteCountLeast(l, numBytes);
      Pow256Values();
      Pow256Monotone(numBytes, 3);
    }
  }

  // ----- TLVs

  lemma TLVLength(tag: Byte, content: seq<Byte>)
    ensures |EncodeTLV(tag, content)| == TLVSize(|content|)
  {
    EncodeLengthSize(|content|);
  }

  lemma TLVSizeMonotone(a: nat, b: nat)
    requires a <= b
    ensures TLVSize(a) <= TLVSize(b)
  {
    LengthSizeMonotone(a, b);
  }

  /** Decoding at an offset is decoding the suffix that starts there. */
  lemma DecodeAtSuffix(data: seq<Byte>, offset: nat)
    requires offset <= |data|
    ensures DecodeTLVAt(data, offset) == DecodeTLV(data[offset..])
  {
    if offset < |data| {
      var suffix := data[offset..];
      assert suffix[1..] == data[offset + 1..];
      var len := DecodeLength(suffix[1..]);
      if len.Ok? && 1 + len.value.consumed + len.value.value <= |suffix| {
        var start := 1 + len.value.consumed;
        assert suffix[start..start + len.value.value] == data[offset + start..offset + start + len.value.value];
      }
    }
  }

  lemma Regroup(tag: Byte, content: seq<Byte>, rest: seq<Byte>)
    ensures EncodeTLV(tag, content) + rest == [tag] + (EncodeLength(|content|) + (content + rest))
  {
  }

  /** A TLV decodes to itself in front of any suffix. */
  lemma TLVRoundTrip(tag: Byte, content: seq<Byte>, rest: seq<Byte>)
    requires |content| < MAX_CONTENT
    ensures DecodeTLV(EncodeTLV(tag, content) + rest) == Ok(Tlv(tag, content, TLVSize(|content|)))
  {
    var data := EncodeTLV(tag, content) + rest;
    var size := LengthSize(|content|);
    EncodeLengthSize(|content|);
    assert data[1..] == EncodeLength(|content|) + (content + rest);
    LengthRoundTrip(|content|, content + rest);
    assert data[1 + size..1 + size + |content|] == content;
  }

  lemma LengthTooLong(l: nat, rest: seq<Byte>)
    requires MAX_CONTENT <= l
    requires ByteCount(l) <= 8
    ensures DecodeLength(EncodeLength(l) + rest).Err?
  {
    LengthSizeValues(l);
    LongForm(l, rest);
  }

  lemma BadLength(tag: Byte, tail: seq<Byte>)
    requires DecodeLength(tail).Err?
    ensures DecodeTLV([tag] + tail).Err?
  {
    assert ([tag] + tail)[1..] == tail;
  }

  /** From 2^24 octets on, no TLV the encoder writes can be read back (Go lengths fit in 8 octets). */
  lemma TLVTooLong(tag: Byte, content: seq<Byte>, rest: seq<Byte>)
    requires MAX_CONTENT <= |content|
    requires ByteCount(|content|) <= 8
    ensures DecodeTLV(EncodeTLV(tag, content) + rest).Err?
  {
    LengthTooLong(|content|, content + rest);
    BadLength(tag, EncodeLength(|content|) + (content + rest));
    Regroup(tag, content, rest);
  }

  /** Re-encoding a decoded TLV never needs more octets than were read. */
  lemma TLVShortest(data: seq<Byte>)
    requires DecodeTLV(data).Ok?
    ensures |DecodeTLV(data).value.content| < MAX_CONTENT
    ensures TLVSize(|DecodeTLV(data).value.content|) <= DecodeTLV(data).value.consumed
  {
    LengthShortest(data[1..]);
  }

  // ----- fields read one after the other

  /** One element's content and the octets after it. */
  datatype Field = Field(content: seq<Byte>, rest: seq<Byte>)

  /** DecodeTLVAt followed by the check of the expected tag and `offset += n`. */
  function ReadField(data: seq<Byte>, tag: Byte): (r: Result<Field>)
    ensures r.Ok? ==> |r.value.content| + |r.value.rest| + 2 <= |data|
  {
    var tlv :- DecodeTLV(data);
    if tlv.tag != tag then Err else Ok(Field(tlv.content, data[tlv.consumed..]))
  }

  lemma ReadFieldRoundTrip(tag: Byte, content: seq<Byte>, rest: seq<Byte>)
    requires |content| < MAX_CONTENT
    ensures ReadField(EncodeTLV(tag, content) + rest, tag) == Ok(Field(content, rest))
  {
    var data := EncodeTLV(tag, content) + rest;
    TLVRoundTrip(tag, content, rest);
    TLVLength(tag, content);
    assert data[TLVSize(|content|)..] == rest;
  }

  lemma ReadLastField(tag: Byte, content: seq<Byte>)
    requires |content| < MAX_CONTENT
    ensures ReadField(EncodeTLV(tag, content), tag) == Ok(Field(content, []))
  {
    ReadFieldRoundTrip(tag, content, []);
    assert EncodeTLV(tag, content) + [] == EncodeTLV(tag, content);
  }
}
