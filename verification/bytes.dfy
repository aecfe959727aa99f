/** Bytes and the big-endian unsigned integers of the wire format. */
module Bytes {

  type byte = x: int | 0 <= x < 256

  /** An unsigned 32-bit integer, the only integer width on the wire. */
  type u32 = x: int | 0 <= x < 0x1_0000_0000

  /** 256 to the power `k`: the number of values `k` bytes can hold. */
  function Pow256(k: nat): (p: nat)
    ensures p > 0
  {
    if k == 0 then 1 else 256 * Pow256(k - 1)
  }

  /** The unsigned integer a byte string denotes in network (big-endian)
      order: the first byte is the most significant. */
  function BigEndian(b: seq<byte>): nat {
    if |b| == 0 then 0 else BigEndian(b[..|b| - 1]) * 256 + b[|b| - 1]
  }

  /** `k` bytes denote a value below 256^k; four bytes fit an unsigned 32-bit
      integer. */
  lemma {:induction false} BigEndianBound(b: seq<byte>)
    ensures BigEndian(b) < Pow256(|b|)
    ensures |b| == 4 ==> BigEndian(b) < 0x1_0000_0000
  {
    if |b| > 0 {
      BigEndianBound(b[..|b| - 1]);
    }
    if |b| == 4 {
      assert Pow256(4) == 0x1_0000_0000;
    }
  }

  /** The `k` low-order bytes of `n`, most significant first. */
  function PackBE(n: nat, k: nat): (b: seq<byte>)
    ensures |b| == k
  {
    if k == 0 then [] else PackBE(n / 256, k - 1) + [n % 256]
  }

  /** The four bytes of `n`, most significant first (`struct.pack('!I', n)`). */
  function Pack4(n: u32): (b: seq<byte>)
    ensures |b| == 4
  {
    PackBE(n, 4)
  }

  /** Four bytes b0..b3 denote b0 * 2^24 + b1 * 2^16 + b2 * 2^8 + b3. */
  lemma {:induction false} BigEndianFour(b: seq<byte>)
    requires |b| == 4
    ensures BigEndian(b) == b[0] as int * 0x100_0000 + b[1] as int * 0x1_0000 + b[2] as int * 0x100 + b[3] as int
  {
    assert b[..3][..2][..1][..0] == [];
    assert BigEndian(b[..3][..2][..1]) == b[0];
    assert BigEndian(b[..3][..2]) == b[0] as int * 256 + b[1] as int;
    assert BigEndian(b[..3]) == (b[0] as int * 256 + b[1] as int) * 256 + b[2] as int;
  }

  /** A leading zero byte does not change the value: this is how the 3-byte
      frame-type field is widened to four bytes before it is unpacked. */
  lemma {:induction false} BigEndianLeadingZero(b: seq<byte>)
    ensures BigEndian([0] + b) == BigEndian(b)
    decreases |b|
  {
    if |b| > 0 {
      assert ([0] + b)[..|b|] == [0] + b[..|b| - 1];
      BigEndianLeadingZero(b[..|b| - 1]);
    }
  }

  /** Reading back the `k` bytes written for a value that fits in them gives
      the value. */
  lemma {:induction false} PackThenUnpack(n: nat, k: nat)
    requires n < Pow256(k)
    ensures BigEndian(PackBE(n, k)) == n
  {
    if k > 0 {
      var b := PackBE(n, k);
      assert b[..k - 1] == PackBE(n / 256, k - 1);
      PackThenUnpack(n / 256, k - 1);
    }
  }

  /** Writing the value of `k` bytes into `k` bytes gives back the bytes:
      with `PackThenUnpack`, packing and unpacking are inverse bijections. */
  lemma {:induction false} UnpackThenPack(b: seq<byte>)
    ensures PackBE(BigEndian(b), |b|) == b
  {
    if |b| > 0 {
      var k := |b|;
      var n := BigEndian(b);
      assert n / 256 == BigEndian(b[..k - 1]) && n % 256 == b[k - 1];
      UnpackThenPack(b[..k - 1]);
      assert b == b[..k - 1] + [b[k - 1]];
    }
  }
}
