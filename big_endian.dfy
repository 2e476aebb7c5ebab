/**
 * Bytes and the big-endian encoding of unsigned integers, as used for the
 * 8-byte length header of every row slot (`u64::to_be_bytes` and
 * `u64::from_be_bytes`).
 */
module BigEndian {

  /** An unsigned 8-bit value, Rust's `u8`. */
  newtype byte = x: int | 0 <= x < 256

  /** 2^64: every `u64` is below this bound. */
  const U64_BOUND: nat := 0x1_0000_0000_0000_0000

  /** Number of bytes of a `u64`. */
  const U64_BYTES: nat := 8

  /** 256^k, the number of distinct values of k bytes. */
  function Pow256(k: nat): (r: nat)
    ensures r >= 1
  {
    if k == 0 then 1 else 256 * Pow256(k - 1)
  }

  lemma Pow256Of8()
    ensures Pow256(U64_BYTES) == U64_BOUND
  {
  }

  /** The k lowest-order bytes of n, most significant first. */
  function ToBeBytes(n: nat, k: nat): (r: seq<byte>)
    ensures |r| == k
  {
    if k == 0 then [] else ToBeBytes(n / 256, k - 1) + [(n % 256) as byte]
  }

  /** The unsigned value of a big-endian byte string. */
  function FromBeBytes(s: seq<byte>): (r: nat)
    ensures r < Pow256(|s|)
  {
    if s == [] then 0 else FromBeBytes(s[..|s| - 1]) * 256 + s[|s| - 1] as nat
  }

  /** Decoding an encoding gives back the value, for every value that fits. */
  lemma {:induction false} FromToBeBytes(n: nat, k: nat)
    requires n < Pow256(k)
    ensures FromBeBytes(ToBeBytes(n, k)) == n
  {
    if k > 0 {
      var s := ToBeBytes(n, k);
      assert s[..k - 1] == ToBeBytes(n / 256, k - 1);
      FromToBeBytes(n / 256, k - 1);
    }
  }

  /** Encoding a decoded byte string gives back the same bytes. */
  lemma {:induction false} ToFromBeBytes(s: seq<byte>)
    ensures ToBeBytes(FromBeBytes(s), |s|) == s
  {
    if s != [] {
      var init := s[..|s| - 1];
      var v := FromBeBytes(s);
      assert v / 256 == FromBeBytes(init) && v % 256 == s[|s| - 1] as nat;
      ToFromBeBytes(init);
      assert s == init + [s[|s| - 1]];
    }
  }

  /** `u64::to_be_bytes`: eight bytes, most significant first. */
  function EncodeU64(n: nat): (r: seq<byte>)
    requires n < U64_BOUND
    ensures |r| == U64_BYTES
  {
    ToBeBytes(n, U64_BYTES)
  }

  /** `u64::from_be_bytes`, widened to `usize` (a 64-bit target). */
  function DecodeU64(s: seq<byte>): (r: nat)
    requires |s| == U64_BYTES
    ensures r < U64_BOUND
  {
    Pow256Of8();
    FromBeBytes(s)
  }

  lemma U64RoundTrip(n: nat)
    requires n < U64_BOUND
    ensures DecodeU64(EncodeU64(n)) == n
  {
    Pow256Of8();
    FromToBeBytes(n, U64_BYTES);
  }

  lemma U64BytesRoundTrip(s: seq<byte>)
    requires |s| == U64_BYTES
    ensures EncodeU64(DecodeU64(s)) == s
  {
    ToFromBeBytes(s);
  }
}
