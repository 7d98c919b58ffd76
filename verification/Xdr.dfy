/**
 External Data Representation: the 32-bit units every NFSv3 message is made of.

 A message is a sequence of `Word`s. Encoders are functions to word sequences;
 decoders take the words still to be read and return the value with the rest.
 */
module Xdr {

  const TWO32: int := 0x1_0000_0000

  type Byte = b: int | 0 <= b < 0x100
  type Word = w: int | 0 <= w < 0x1_0000_0000
  type U64 = v: int | 0 <= v < 0x1_0000_0000_0000_0000

  /** What a decoder found: a value and the words after it, or a malformed message. */
  datatype Parsed<+T> = Bad | Good(value: T, rest: seq<Word>)

  /** Number of units that hold `n` bytes (XDR_QUADLEN). */
  function QuadLen(n: nat): nat {
    (n + 3) / 4
  }

  /** Concatenation is associative; named so that long messages need not unfold. */
  lemma Assoc<T>(a: seq<T>, b: seq<T>, c: seq<T>)
    ensures a + b + c == a + (b + c)
  {
  }

  function Hyper(v: U64): (r: seq<Word>)
    ensures |r| == 2
  {
    [v / TWO32, v % TWO32]
  }

  function FromHyper(hi: Word, lo: Word): U64 {
    hi * TWO32 + lo
  }

  lemma HyperRoundTrip(v: U64)
    ensures FromHyper(Hyper(v)[0], Hyper(v)[1]) == v
  {
  }

  // ----- byte strings in words, high byte first, padded with zero bytes -----

  function Quad(b0: Byte, b1: Byte, b2: Byte, b3: Byte): Word {
    b0 * 0x100_0000 + b1 * 0x1_0000 + b2 * 0x100 + b3
  }

  function UnQuad(w: Word): (r: seq<Byte>)
    ensures |r| == 4
  {
    [w / 0x100_0000, w / 0x1_0000 % 0x100, w / 0x100 % 0x100, w % 0x100]
  }

  lemma UnQuadQuad(b0: Byte, b1: Byte, b2: Byte, b3: Byte)
    ensures UnQuad(Quad(b0, b1, b2, b3)) == [b0, b1, b2, b3]
  {
    var w := Quad(b0, b1, b2, b3);
    assert w / 0x100 == b0 * 0x1_0000 + b1 * 0x100 + b2;
    assert w / 0x1_0000 == b0 * 0x100 + b1;
  }

  lemma QuadUnQuad(w: Word)
    ensures var b := UnQuad(w); Quad(b[0], b[1], b[2], b[3]) == w
  {
    assert w / 0x1_0000 == w / 0x100_0000 * 0x100 + w / 0x1_0000 % 0x100;
    assert w / 0x100 == w / 0x1_0000 * 0x100 + w / 0x100 % 0x100;
  }

  function ByteAt(bs: seq<Byte>, i: nat): Byte {
    if i < |bs| then bs[i] else 0
  }

  /** The data part of an opaque: `bs` in QuadLen(|bs|) words, zero padded. */
  function Pack(bs: seq<Byte>): (r: seq<Word>)
    ensures |r| == QuadLen(|bs|)
    decreases |bs|
  {
    if |bs| == 0 then []
    else
      [Quad(bs[0], ByteAt(bs, 1), ByteAt(bs, 2), ByteAt(bs, 3))] +
      Pack(if |bs| < 4 then [] else bs[4..])
  }

  function Unpack(ws: seq<Word>, n: nat): (r: seq<Byte>)
    requires |ws| == QuadLen(n)
    ensures |r| == n
    decreases n
  {
    if n == 0 then []
    else if n < 4 then UnQuad(ws[0])[..n]
    else UnQuad(ws[0]) + Unpack(ws[1..], n - 4)
  }

  lemma UnpackPackFour(bs: seq<Byte>)
    requires |bs| >= 4 && Unpack(Pack(bs[4..]), |bs| - 4) == bs[4..]
    ensures Unpack(Pack(bs), |bs|) == bs
  {
    hide Quad, UnQuad;
    UnQuadQuad(bs[0], bs[1], bs[2], bs[3]);
    assert Pack(bs)[1..] == Pack(bs[4..]);
    assert bs == [bs[0], bs[1], bs[2], bs[3]] + bs[4..];
  }

  lemma {:induction false} UnpackPack(bs: seq<Byte>)
    ensures Unpack(Pack(bs), |bs|) == bs
  {
    hide Quad, UnQuad;
    if |bs| == 0 {
    } else {
      UnQuadQuad(bs[0], ByteAt(bs, 1), ByteAt(bs, 2), ByteAt(bs, 3));
      if |bs| >= 4 {
        UnpackPack(bs[4..]);
        UnpackPackFour(bs);
      }
    }
  }

  /** Variable-length opaque data: byte count, then the bytes. */
  function Opaque(bs: seq<Byte>): (r: seq<Word>)
    requires |bs| < TWO32
    ensures |r| == 1 + QuadLen(|bs|)
  {
    [|bs|] + Pack(bs)
  }

  // ----- decoders -----

  function TakeWord(s: seq<Word>): Parsed<Word> {
    if |s| < 1 then Bad else Good(s[0], s[1..])
  }

  function TakeHyper(s: seq<Word>): Parsed<U64> {
    if |s| < 2 then Bad else Good(FromHyper(s[0], s[1]), s[2..])
  }

  function TakeOpaque(s: seq<Word>): Parsed<seq<Byte>> {
    if |s| < 1 || |s| < 1 + QuadLen(s[0]) then Bad
    else Good(Unpack(s[1..1 + QuadLen(s[0])], s[0]), s[1 + QuadLen(s[0])..])
  }

  lemma TakeHyperHyper(v: U64, rest: seq<Word>)
    ensures TakeHyper(Hyper(v) + rest) == Good(v, rest)
  {
    HyperRoundTrip(v);
    assert (Hyper(v) + rest)[2..] == rest;
  }

  lemma TakeOpaqueOpaque(bs: seq<Byte>, rest: seq<Word>)
    requires |bs| < TWO32
    ensures TakeOpaque(Opaque(bs) + rest) == Good(bs, rest)
  {
    var s := Opaque(bs) + rest;
    UnpackPack(bs);
    assert s[1..1 + QuadLen(|bs|)] == Pack(bs);
    assert s[1 + QuadLen(|bs|)..] == rest;
  }
}
