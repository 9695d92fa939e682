/**
 The text check of MMS strings (internal/pdu/data.go, by unicode/utf8.Valid)
 against the definition of UTF-8 in section 3 of RFC 3629: the texts accepted
 are exactly the encodings of sequences of Unicode scalar values.
 */
module Utf8 {
  import opened Bytes
  import opened Data

  /** Every code point but the surrogates. */
  predicate Scalar(c: nat) {
    c < 0xd800 || 0xe000 <= c < 0x11_0000
  }

  /** The octets of one character: one to four of them, six bits in each continuation octet. */
  function Encode(c: nat): (bs: seq<Byte>)
    requires Scalar(c)
    ensures 1 <= |bs| <= 4
  {
    if c < 0x80 then [c]
    else if c < 0x800 then [0xc0 + c / 64, 0x80 + c % 64]
    else if c < 0x1_0000 then [0xe0 + c / 4096, 0x80 + c / 64 % 64, 0x80 + c % 64]
    else [0xf0 + c / 0x4_0000, 0x80 + c / 4096 % 64, 0x80 + c / 64 % 64, 0x80 + c % 64]
  }

  predicate Scalars(cs: seq<nat>) {
    forall i :: 0 <= i < |cs| ==> Scalar(cs[i])
  }

  function EncodeText(cs: seq<nat>): (bs: seq<Byte>)
    requires Scalars(cs)
  {
    if cs == [] then [] else Encode(cs[0]) + EncodeText(cs[1..])
  }

  lemma TwoOctets(a: int, b: int) returns (c: nat)
    requires 0xc2 <= a <= 0xdf && 0x80 <= b <= 0xbf
    ensures Scalar(c) && Encode(c) == [a, b]
  {
    c := (a - 0xc0) * 64 + (b - 0x80);
  }

  lemma ThreeOctets(a: int, b: int, d: int) returns (c: nat)
    requires 0xe0 <= a <= 0xef && 0x80 <= b <= 0xbf && 0x80 <= d <= 0xbf
    requires (a == 0xe0 ==> b >= 0xa0) && (a == 0xed ==> b <= 0x9f)
    ensures Scalar(c) && Encode(c) == [a, b, d]
  {
    var top := (a - 0xe0) * 64 + (b - 0x80);
    c := top * 64 + (d - 0x80);
    assert c / 64 == top && c % 64 == d - 0x80;
    assert c / 4096 == a - 0xe0;
  }

  lemma FourOctets(a: int, b: int, d: int, e: int) returns (c: nat)
    requires 0xf0 <= a <= 0xf4 && 0x80 <= b <= 0xbf && 0x80 <= d <= 0xbf && 0x80 <= e <= 0xbf
    requires (a == 0xf0 ==> b >= 0x90) && (a == 0xf4 ==> b <= 0x8f)
    ensures Scalar(c) && Encode(c) == [a, b, d, e]
  {
    var high := (a - 0xf0) * 64 + (b - 0x80);
    var top := high * 64 + (d - 0x80);
    c := top * 64 + (e - 0x80);
    assert c / 64 == top && c % 64 == e - 0x80;
    assert c / 4096 == high && top % 64 == d - 0x80;
    assert c / 0x4_0000 == a - 0xf0;
  }

  /** Valid text starts with the octets of one character, and goes on with valid text. */
  lemma First(bs: seq<Byte>) returns (c: nat)
    requires bs != [] && ValidUtf8(bs)
    ensures Scalar(c) && |Encode(c)| <= |bs| && Encode(c) == bs[..|Encode(c)|] && ValidUtf8(bs[|Encode(c)|..])
  {
    hide Encode;
    if bs[0] < 0x80 {
      c := bs[0];
      OneOctet(c);
      assert bs[..1] == [bs[0]];
    } else if bs[0] < 0xe0 {
      c := TwoOctets(bs[0], bs[1]);
      assert bs[..2] == [bs[0], bs[1]];
    } else if bs[0] < 0xf0 {
      c := ThreeOctets(bs[0], bs[1], bs[2]);
      assert bs[..3] == [bs[0], bs[1], bs[2]];
    } else {
      c := FourOctets(bs[0], bs[1], bs[2], bs[3]);
      assert bs[..4] == [bs[0], bs[1], bs[2], bs[3]];
    }
  }

  lemma OneOctet(c: nat)
    requires c < 0x80
    ensures Scalar(c) && Encode(c) == [c]
  {
  }

  lemma {:induction false} Characters(bs: seq<Byte>) returns (cs: seq<nat>)
    requires ValidUtf8(bs)
    ensures Scalars(cs) && EncodeText(cs) == bs
    decreases |bs|
  {
    if bs == [] {
      cs := [];
    } else {
      var c := First(bs);
      var n := |Encode(c)|;
      var rest := Characters(bs[n..]);
      cs := [c] + rest;
      assert cs[1..] == rest;
      assert bs == bs[..n] + bs[n..];
    }
  }

  lemma EncodedFirst(c: nat, tail: seq<Byte>)
    requires Scalar(c) && ValidUtf8(tail)
    ensures ValidUtf8(Encode(c) + tail)
  {
    var bs := Encode(c) + tail;
    assert bs[|Encode(c)|..] == tail;
  }

  lemma {:induction false} EncodedIsValid(cs: seq<nat>)
    requires Scalars(cs)
    ensures ValidUtf8(EncodeText(cs))
  {
    if cs != [] {
      EncodedIsValid(cs[1..]);
      EncodedFirst(cs[0], EncodeText(cs[1..]));
    }
  }

  ghost predicate IsText(bs: seq<Byte>) {
    exists cs: seq<nat> :: Scalars(cs) && EncodeText(cs) == bs
  }

  /** A text is accepted exactly when it encodes some sequence of Unicode scalar values. */
  lemma ValidExactly(bs: seq<Byte>)
    ensures ValidUtf8(bs) <==> IsText(bs)
  {
    if ValidUtf8(bs) {
      var cs := Characters(bs);
    } else if IsText(bs) {
      var cs: seq<nat> :| Scalars(cs) && EncodeText(cs) == bs;
      EncodedIsValid(cs);
    }
  }
}
