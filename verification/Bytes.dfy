/** Bytes and the little-endian integers the file, log and page formats are built from. */
module Bytes {

  type Byte = b: int | 0 <= b < 256

  type Buffer = seq<Byte>

  const U16_END: nat := 0x1_0000
  const U32_END: nat := 0x1_0000_0000
  const U64_END: nat := 0x1_0000_0000_0000_0000

  function Pow256(width: nat): (r: nat)
    ensures r > 0
  {
    if width == 0 then 1 else 256 * Pow256(width - 1)
  }

  lemma {:induction false} Pow256Values()
    ensures Pow256(1) == 0x100 && Pow256(2) == 0x1_0000 && Pow256(4) == 0x1_0000_0000
    ensures Pow256(8) == 0x1_0000_0000_0000_0000
  {
    assert Pow256(2) == 256 * Pow256(1);
    assert Pow256(3) == 256 * Pow256(2);
    assert Pow256(4) == 256 * Pow256(3);
    assert Pow256(5) == 256 * Pow256(4);
    assert Pow256(6) == 256 * Pow256(5);
    assert Pow256(7) == 256 * Pow256(6);
    assert Pow256(8) == 256 * Pow256(7);
  }

  /** `to_le_bytes` of an unsigned integer of the given width; wider values are truncated. */
  function ToLE(n: nat, width: nat): (r: Buffer)
    ensures |r| == width
    decreases width
  {
    if width == 0 then [] else [n % 256] + ToLE(n / 256, width - 1)
  }

  /** `from_le_bytes`. */
  function FromLE(bytes: Buffer): (r: nat)
  {
    if bytes == [] then 0 else bytes[0] + 256 * FromLE(bytes[1..])
  }

  lemma {:induction false} FromLEBound(bytes: Buffer)
    ensures FromLE(bytes) < Pow256(|bytes|)
  {
    if bytes != [] {
      FromLEBound(bytes[1..]);
    }
  }

  lemma {:induction false} LERoundTrip(n: nat, width: nat)
    requires n < Pow256(width)
    ensures FromLE(ToLE(n, width)) == n
    decreases width
  {
    if width > 0 {
      LERoundTrip(n / 256, width - 1);
      assert ToLE(n, width)[1..] == ToLE(n / 256, width - 1);
    }
  }

  lemma {:induction false} LEBytesRoundTrip(bytes: Buffer)
    ensures ToLE(FromLE(bytes), |bytes|) == bytes
  {
    if bytes != [] {
      LEBytesRoundTrip(bytes[1..]);
    }
  }

  /** The last byte is the most significant one: byte i counts multiples of 256 to the i. */
  lemma {:induction false} LELastByte(bytes: Buffer, x: Byte)
    ensures FromLE([]) == 0 && FromLE(bytes + [x]) == FromLE(bytes) + Pow256(|bytes|) * x
  {
    if bytes == [] {
      assert [] + [x] == [x] && [x][1..] == [];
    } else {
      LELastByte(bytes[1..], x);
      assert (bytes + [x])[1..] == bytes[1..] + [x];
      assert Pow256(|bytes|) * x == 256 * (Pow256(|bytes| - 1) * x);
    }
  }
}
