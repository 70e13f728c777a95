/** Bytes and the unsigned little-endian integers that struct.unpack reads
    with the formats "<B", "<I" and "<Q". */
module Bytes {

  newtype byte = x: int | 0 <= x < 256

  /** 256 to the power k: one more than the largest k-byte unsigned value. */
  function Pow256(k: nat): (p: nat)
    ensures p >= 1
  {
    if k == 0 then 1 else 256 * Pow256(k - 1)
  }

  /** The unsigned value of b read least significant byte first. */
  function LittleEndian(b: seq<byte>): (n: nat)
    ensures n < Pow256(|b|)
  {
    if b == [] then 0 else b[0] as nat + 256 * LittleEndian(b[1..])
  }

  /** The k-byte little-endian encoding of n. */
  function ToLittleEndian(n: nat, k: nat): (b: seq<byte>)
    requires n < Pow256(k)
    ensures |b| == k
  {
    if k == 0 then [] else [(n % 256) as byte] + ToLittleEndian(n / 256, k - 1)
  }

  /** Encoding then decoding a k-byte unsigned value gives it back. */
  lemma {:induction false} LittleEndianRoundTrip(n: nat, k: nat)
    requires n < Pow256(k)
    ensures LittleEndian(ToLittleEndian(n, k)) == n
  {
    if k > 0 {
      LittleEndianRoundTrip(n / 256, k - 1);
      var b := ToLittleEndian(n, k);
      assert b[1..] == ToLittleEndian(n / 256, k - 1);
    }
  }

  /** Decoding then encoding gives back the bytes: the encoding is a bijection. */
  lemma {:induction false} LittleEndianInjective(b: seq<byte>)
    ensures ToLittleEndian(LittleEndian(b), |b|) == b
  {
    if b != [] {
      LittleEndianInjective(b[1..]);
      var n := LittleEndian(b);
      assert n % 256 == b[0] as nat;
      assert n / 256 == LittleEndian(b[1..]);
    }
  }
}
