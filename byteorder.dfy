/** Fixed-width unsigned integers and their big-endian byte encoding, as
    `encoding/binary.BigEndian` reads and writes them. */
module ByteOrder {

  type uint8 = x: int | 0 <= x < 0x100
  type uint16 = x: int | 0 <= x < 0x1_0000
  type uint32 = x: int | 0 <= x < 0x1_0000_0000
  type uint64 = x: int | 0 <= x < 0x1_0000_0000_0000_0000

  /** A Go `[]byte` (and, for keys, a Go `string`). */
  type Bytes = seq<uint8>

  /** 256 to the power n: one more than the largest n-byte value. */
  function Pow256(n: nat): (p: nat)
    ensures p >= 1
  {
    if n == 0 then 1 else 256 * Pow256(n - 1)
  }

  lemma Pow256Widths()
    ensures Pow256(1) == 0x100 && Pow256(2) == 0x1_0000
    ensures Pow256(4) == 0x1_0000_0000 && Pow256(8) == 0x1_0000_0000_0000_0000
  {
    assert Pow256(2) == 0x1_0000;
    assert Pow256(4) == 0x1_0000_0000;
    assert Pow256(6) == 0x1_0000_0000_0000;
  }

  /** The unsigned value of b read most significant byte first. */
  function BigEndian(b: Bytes): (v: nat)
    ensures v < Pow256(|b|)
  {
    if |b| == 0 then 0 else BigEndian(b[..|b| - 1]) * 256 + b[|b| - 1]
  }

  lemma BigEndian1(b: Bytes)
    requires |b| == 1
    ensures BigEndian(b) == b[0]
  {
    assert b[..0] == [];
  }

  /** Reading one more byte shifts the value read so far up by a byte. */
  lemma BigEndianExtend(b: Bytes, i: nat, j: nat)
    requires i <= j < |b|
    ensures BigEndian(b[i..j + 1]) == BigEndian(b[i..j]) * 0x100 + b[j]
  {
    assert b[i..j + 1][..j - i] == b[i..j];
  }

  lemma BigEndian2At(b: Bytes, i: nat)
    requires i + 2 <= |b|
    ensures BigEndian(b[i..i + 2]) == (b[i] as int) * 0x100 + b[i + 1]
  {
    BigEndianExtend(b, i, i);
    BigEndianExtend(b, i, i + 1);
    assert b[i..i] == [];
  }

  lemma BigEndian4At(b: Bytes, i: nat)
    requires i + 4 <= |b|
    ensures BigEndian(b[i..i + 4]) == (((b[i] as int) * 0x100 + b[i + 1]) * 0x100 + b[i + 2]) * 0x100 + b[i + 3]
  {
    BigEndian2At(b, i);
    BigEndianExtend(b, i, i + 2);
    BigEndianExtend(b, i, i + 3);
  }

  lemma BigEndian8At(b: Bytes, i: nat)
    requires i + 8 <= |b|
    ensures BigEndian(b[i..i + 8]) ==
      (((((((b[i] as int) * 0x100 + b[i + 1]) * 0x100 + b[i + 2]) * 0x100 + b[i + 3]) * 0x100
        + b[i + 4]) * 0x100 + b[i + 5]) * 0x100 + b[i + 6]) * 0x100 + b[i + 7]
  {
    BigEndian4At(b, i);
    BigEndianExtend(b, i, i + 4);
    BigEndianExtend(b, i, i + 5);
    BigEndianExtend(b, i, i + 6);
    BigEndianExtend(b, i, i + 7);
  }

  /** binary.Read into a uint32: four big-endian bytes. */
  function Uint32Of(b: Bytes): (v: uint32)
    requires |b| == 4
    ensures v == BigEndian(b)
  {
    Pow256Widths();
    BigEndian(b)
  }

  /** The n-byte big-endian encoding of v. */
  function ToBigEndian(v: nat, n: nat): (b: Bytes)
    requires v < Pow256(n)
    ensures |b| == n
  {
    if n == 0 then [] else ToBigEndian(v / 256, n - 1) + [v % 256]
  }

  /** Decoding an encoded value gives the value back. */
  lemma {:induction false} BigEndianOfToBigEndian(v: nat, n: nat)
    requires v < Pow256(n)
    ensures BigEndian(ToBigEndian(v, n)) == v
  {
    if n > 0 {
      var b := ToBigEndian(v, n);
      assert b[..n - 1] == ToBigEndian(v / 256, n - 1);
      BigEndianOfToBigEndian(v / 256, n - 1);
    }
  }

  /** Encoding a decoded byte string at its own width gives the bytes back. */
  lemma {:induction false} ToBigEndianOfBigEndian(b: Bytes)
    ensures ToBigEndian(BigEndian(b), |b|) == b
  {
    if |b| > 0 {
      var init := b[..|b| - 1];
      var v := BigEndian(b);
      assert v / 256 == BigEndian(init) && v % 256 == b[|b| - 1];
      ToBigEndianOfBigEndian(init);
      assert b == init + [b[|b| - 1]];
    }
  }
}
