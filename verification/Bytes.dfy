/** Bytes, machine words and the little-endian encodings that the ring entries
    and the report frames use on the wire. */
module Bytes {

  type byte = b: int | 0 <= b < 256

  const U16: nat := 0x1_0000
  const U32: nat := 0x1_0000_0000
  const U64: nat := 0x1_0000_0000_0000_0000

  /** The n low bytes of v, least significant first. */
  function Le(v: nat, n: nat): (bs: seq<byte>)
    ensures |bs| == n
  {
    if n == 0 then [] else [v % 256] + Le(v / 256, n - 1)
  }

  /** The number a little-endian byte string stands for. */
  function Val(bs: seq<byte>): nat {
    if bs == [] then 0 else bs[0] + 256 * Val(bs[1..])
  }

  function Pow256(n: nat): (p: nat)
    ensures p > 0
  {
    if n == 0 then 1 else 256 * Pow256(n - 1)
  }

  lemma {:induction false} Pow256Words()
    ensures Pow256(2) == U16 && Pow256(4) == U32 && Pow256(8) == U64
  {
    assert Pow256(1) == 256 * Pow256(0);
    assert Pow256(3) == 256 * Pow256(2);
    assert Pow256(4) == 256 * Pow256(3);
    assert Pow256(5) == 256 * Pow256(4);
    assert Pow256(6) == 256 * Pow256(5);
    assert Pow256(7) == 256 * Pow256(6);
  }

  /** Encoding then decoding gives the number back as long as it fits. */
  lemma {:induction false} ValLe(v: nat, n: nat)
    requires v < Pow256(n)
    ensures Val(Le(v, n)) == v
  {
    if n > 0 {
      ValLe(v / 256, n - 1);
    }
  }

  /** Decoding then encoding gives the bytes back. */
  lemma {:induction false} LeVal(bs: seq<byte>)
    ensures Val(bs) < Pow256(|bs|)
    ensures Le(Val(bs), |bs|) == bs
  {
    if bs != [] {
      LeVal(bs[1..]);
      LowByte(bs[0], Val(bs[1..]));
      assert bs == [bs[0]] + bs[1..];
    }
  }

  lemma LowByte(b: byte, v: nat)
    ensures (b + 256 * v) % 256 == b && (b + 256 * v) / 256 == v
  {
  }

  /** The first byte is the least significant one. */
  lemma {:induction false} ValOfTwo(bs: seq<byte>)
    requires |bs| == 2
    ensures Val(bs) == (bs[0] as int) + 256 * (bs[1] as int)
  {
    assert bs[1..][0] == bs[1] && bs[1..][1..] == [];
    assert Val(bs[1..]) == bs[1];
  }

  lemma {:induction false} ValOfFour(bs: seq<byte>)
    requires |bs| == 4
    ensures Val(bs) == (bs[0] as int) + 0x100 * (bs[1] as int) + 0x1_0000 * (bs[2] as int)
                       + 0x100_0000 * (bs[3] as int)
  {
    var tail := bs[1..];
    ValOfTwo(tail[1..]);
    assert Val(tail) == (tail[0] as int) + 256 * Val(tail[1..]);
  }

  /** The 16-bit word at a position, the low byte first. */
  ghost function Half(bs: seq<byte>, at: nat): int
    requires at + 2 <= |bs|
  {
    (bs[at] as int) + 0x100 * (bs[at + 1] as int)
  }

  /** The 32-bit word at a position, the low byte first. */
  ghost function Word(bs: seq<byte>, at: nat): int
    requires at + 4 <= |bs|
  {
    (bs[at] as int) + 0x100 * (bs[at + 1] as int) + 0x1_0000 * (bs[at + 2] as int) + 0x100_0000 * (bs[at + 3] as int)
  }

  lemma {:induction false} ValHalf(bs: seq<byte>, at: nat)
    requires at + 2 <= |bs|
    ensures Val(bs[at..at + 2]) == Half(bs, at)
  {
    ValOfTwo(bs[at..at + 2]);
  }

  lemma {:induction false} ValWord(bs: seq<byte>, at: nat)
    requires at + 4 <= |bs|
    ensures Val(bs[at..at + 4]) == Word(bs, at)
  {
    ValOfFour(bs[at..at + 4]);
  }

  lemma {:induction false} ValDouble(bs: seq<byte>, at: nat)
    requires at + 8 <= |bs|
    ensures Val(bs[at..at + 8]) == Word(bs, at) + 0x1_0000_0000 * Word(bs, at + 4)
  {
    var tail := bs[at..at + 8];
    ValWord(bs, at + 4);
    ValSplit(tail, 4);
    ValWord(bs, at);
    assert tail[..4] == bs[at..at + 4] && tail[4..] == bs[at + 4..at + 8];
    Pow256Words();
  }

  lemma {:induction false} ValSplit(bs: seq<byte>, k: nat)
    requires k <= |bs|
    ensures Val(bs) == Val(bs[..k]) + Pow256(k) * Val(bs[k..])
  {
    if k == 0 {
      assert bs[0..] == bs;
    } else {
      ValSplit(bs[1..], k - 1);
      assert bs[..k][1..] == bs[1..][..k - 1] && bs[1..][k - 1..] == bs[k..];
      Carry(Val(bs[1..][..k - 1]), Pow256(k - 1), Val(bs[k..]));
    }
  }

  lemma Carry(low: nat, weight: nat, high: nat)
    ensures 256 * (low + weight * high) == 256 * low + (256 * weight) * high
  {
  }

  lemma ValLe16(v: nat)
    requires v < U16
    ensures Val(Le(v, 2)) == v
  {
    Pow256Words();
    ValLe(v, 2);
  }

  lemma ValLe32(v: nat)
    requires v < U32
    ensures Val(Le(v, 4)) == v
  {
    Pow256Words();
    ValLe(v, 4);
  }

  lemma ValLe64(v: nat)
    requires v < U64
    ensures Val(Le(v, 8)) == v
  {
    Pow256Words();
    ValLe(v, 8);
  }
}
