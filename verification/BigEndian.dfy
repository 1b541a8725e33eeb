/**
 * The byte layout of `java.io.DataOutputStream.writeInt`/`writeLong` and
 * `DataInputStream.readInt`/`readLong`: two's complement, most significant
 * byte first.
 */
module BigEndian {
  import opened JavaInt

  type Byte = b: int | 0 <= b < 0x100

  /** The widths of a Java `int` and `long` in bytes. */
  const INT_BYTES: nat := 4
  const LONG_BYTES: nat := 8

  function Pow256(k: nat): (p: nat)
    ensures p >= 1
  {
    if k == 0 then 1 else 0x100 * Pow256(k - 1)
  }

  lemma Pow256Widths()
    ensures Pow256(INT_BYTES) == 0x1_0000_0000
    ensures Pow256(LONG_BYTES) == 0x1_0000_0000_0000_0000
  {
    assert Pow256(1) == 0x100;
    assert Pow256(2) == 0x1_0000;
    assert Pow256(3) == 0x100_0000;
    assert Pow256(4) == 0x1_0000_0000;
    assert Pow256(5) == 0x100_0000_0000;
    assert Pow256(6) == 0x1_0000_0000_0000;
    assert Pow256(7) == 0x100_0000_0000_0000;
  }

  /** The value of `bs` read as an unsigned big-endian number. */
  function FromBytes(bs: seq<Byte>): (u: nat)
    ensures u < Pow256(|bs|)
    decreases |bs|
  {
    if |bs| == 0 then 0 else FromBytes(bs[..|bs| - 1]) * 0x100 + bs[|bs| - 1]
  }

  /** The `k` big-endian bytes of an unsigned value below 256^k. */
  function ToBytes(u: nat, k: nat): (bs: seq<Byte>)
    requires u < Pow256(k)
    ensures |bs| == k
    decreases k
  {
    if k == 0 then [] else ToBytes(u / 0x100, k - 1) + [u % 0x100]
  }

  lemma {:induction false} FromToBytes(u: nat, k: nat)
    requires u < Pow256(k)
    ensures FromBytes(ToBytes(u, k)) == u
    decreases k
  {
    if k > 0 {
      var bs := ToBytes(u, k);
      assert bs[..k - 1] == ToBytes(u / 0x100, k - 1);
      FromToBytes(u / 0x100, k - 1);
    }
  }

  lemma {:induction false} ToFromBytes(bs: seq<Byte>)
    ensures ToBytes(FromBytes(bs), |bs|) == bs
    decreases |bs|
  {
    if |bs| > 0 {
      var init := bs[..|bs| - 1];
      var last := bs[|bs| - 1];
      var u := FromBytes(bs);
      assert u == FromBytes(init) * 0x100 + last;
      assert u / 0x100 == FromBytes(init) && u % 0x100 == last;
      ToFromBytes(init);
      calc {
        ToBytes(u, |bs|);
        ToBytes(u / 0x100, |bs| - 1) + [u % 0x100];
        ToBytes(FromBytes(init), |init|) + [last];
        init + [last];
        bs;
      }
    }
  }

  /** `x` is representable in `k` bytes of two's complement. */
  predicate FitsSigned(x: int, k: nat) {
    var half: int := Pow256(k) / 2;
    k >= 1 && -half <= x < half
  }

  /** The two's-complement encoding of `x` in `k` bytes. */
  function WriteSigned(x: int, k: nat): (bs: seq<Byte>)
    requires FitsSigned(x, k)
    ensures |bs| == k
  {
    ToBytes(if x < 0 then x + Pow256(k) else x, k)
  }

  /** The two's-complement value of `bs`. */
  function ReadSigned(bs: seq<Byte>): (x: int)
    requires |bs| >= 1
    ensures FitsSigned(x, |bs|)
  {
    var u := FromBytes(bs);
    if u >= Pow256(|bs|) / 2 then u - Pow256(|bs|) else u
  }

  lemma ReadWriteSigned(x: int, k: nat)
    requires FitsSigned(x, k)
    ensures ReadSigned(WriteSigned(x, k)) == x
  {
    FromToBytes(if x < 0 then x + Pow256(k) else x, k);
  }

  /** `DataOutputStream.writeInt`. */
  function WriteInt(x: Int32): (bs: seq<Byte>)
    ensures |bs| == 4
  {
    Pow256Widths();
    WriteSigned(x, INT_BYTES)
  }

  /** `DataInputStream.readInt` on exactly four available bytes. */
  function ReadInt(bs: seq<Byte>): (x: Int32)
    requires |bs| == 4
  {
    Pow256Widths();
    ReadSigned(bs)
  }

  /** `DataOutputStream.writeLong`. */
  function WriteLong(x: Int64): (bs: seq<Byte>)
    ensures |bs| == 8
  {
    Pow256Widths();
    WriteSigned(x, LONG_BYTES)
  }

  /** `DataInputStream.readLong` on exactly eight available bytes. */
  function ReadLong(bs: seq<Byte>): (x: Int64)
    requires |bs| == 8
  {
    Pow256Widths();
    ReadSigned(bs)
  }

  lemma ReadWriteInt(x: Int32)
    ensures ReadInt(WriteInt(x)) == x
  {
    Pow256Widths();
    ReadWriteSigned(x, INT_BYTES);
  }

  lemma ReadWriteLong(x: Int64)
    ensures ReadLong(WriteLong(x)) == x
  {
    Pow256Widths();
    ReadWriteSigned(x, LONG_BYTES);
  }

  /** Every four bytes are the encoding of some int, so `readInt` loses nothing. */
  lemma WriteReadInt(bs: seq<Byte>)
    requires |bs| == 4
    ensures WriteInt(ReadInt(bs)) == bs
  {
    Pow256Widths();
    ToFromBytes(bs);
  }

  /** Every eight bytes are the encoding of some long. */
  lemma WriteReadLong(bs: seq<Byte>)
    requires |bs| == 8
    ensures WriteLong(ReadLong(bs)) == bs
  {
    Pow256Widths();
    ToFromBytes(bs);
  }
}
