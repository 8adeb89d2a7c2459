/** Byte-level encoding shared by the ledger records: fixed-width integers,
    256-bit values and the sequential reader that `deserialize` uses on a
    stream. A read that runs out of bytes is the error flag the C++ returns. */
module Codec {

  type byte = bv8

  const U64_LIMIT: int := 0x1_0000_0000_0000_0000
  const U128_LIMIT: int := 0x1_0000_0000_0000_0000_0000_0000_0000_0000

  /** uint64_t */
  type U64 = n: int | 0 <= n < 0x1_0000_0000_0000_0000

  /** uint128_t, the number held by rai::amount (a uint128_union) */
  type U128 = n: int | 0 <= n < 0x1_0000_0000_0000_0000_0000_0000_0000_0000

  /** A 256-bit union (block_hash, account, public key) as its 32 raw bytes. */
  type Hash = s: seq<byte> | |s| == 32 witness seq(32, _ => 0)

  const HASH_SIZE: nat := 32
  const U64_SIZE: nat := 8
  const U128_SIZE: nat := 16

  function Pow256(k: nat): (r: nat)
    ensures r > 0
  {
    if k == 0 then 1 else 256 * Pow256(k - 1)
  }

  /** The low k bytes of n, most significant first (uint128_union::bytes). */
  function EncodeBE(n: nat, k: nat): (r: seq<byte>)
    ensures |r| == k
  {
    if k == 0 then [] else EncodeBE(n / 256, k - 1) + [(n % 256) as byte]
  }

  /** The number whose big-endian bytes are s. */
  function DecodeBE(s: seq<byte>): (r: nat)
    ensures r < Pow256(|s|)
  {
    if s == [] then 0 else DecodeBE(s[..|s| - 1]) * 256 + s[|s| - 1] as nat
  }

  /** The low k bytes of n, least significant first (a uint64_t written from memory). */
  function EncodeLE(n: nat, k: nat): (r: seq<byte>)
    ensures |r| == k
  {
    if k == 0 then [] else [(n % 256) as byte] + EncodeLE(n / 256, k - 1)
  }

  /** The number whose little-endian bytes are s. */
  function DecodeLE(s: seq<byte>): (r: nat)
    ensures r < Pow256(|s|)
  {
    if s == [] then 0 else s[0] as nat + 256 * DecodeLE(s[1..])
  }

  lemma DivBelow(n: nat, p: nat)
    requires n < 256 * p
    ensures n / 256 < p
    ensures n == n / 256 * 256 + ((n % 256) as byte) as nat
  {
  }

  lemma SplitByte(q: nat, b: byte)
    ensures (q * 256 + b as nat) / 256 == q
    ensures (q * 256 + b as nat) % 256 == b as nat
  {
  }

  lemma Pow256Limits()
    ensures Pow256(U64_SIZE) == U64_LIMIT
    ensures Pow256(U128_SIZE) == U128_LIMIT
  {
    assert Pow256(8) == U64_LIMIT;
    assert Pow256(16) == Pow256(8) * Pow256(8) by {
      assert Pow256(16) == 256 * 256 * 256 * 256 * 256 * 256 * 256 * 256 * Pow256(8);
    }
  }

  lemma {:induction false} DecodeEncodeBE(n: nat, k: nat)
    requires n < Pow256(k)
    ensures DecodeBE(EncodeBE(n, k)) == n
  {
    if k > 0 {
      var q, b := n / 256, (n % 256) as byte;
      var e := EncodeBE(n, k);
      assert e == EncodeBE(q, k - 1) + [b];
      assert e[..k - 1] == EncodeBE(q, k - 1);
      DivBelow(n, Pow256(k - 1));
      DecodeEncodeBE(q, k - 1);
      assert DecodeBE(e) == q * 256 + b as nat;
    }
  }

  lemma {:induction false} EncodeDecodeBE(s: seq<byte>)
    ensures EncodeBE(DecodeBE(s), |s|) == s
  {
    if s != [] {
      var init, last := s[..|s| - 1], s[|s| - 1];
      var d := DecodeBE(s);
      assert d == DecodeBE(init) * 256 + last as nat;
      SplitByte(DecodeBE(init), last);
      EncodeDecodeBE(init);
      assert s == init + [last];
    }
  }

  lemma {:induction false} DecodeEncodeLE(n: nat, k: nat)
    requires n < Pow256(k)
    ensures DecodeLE(EncodeLE(n, k)) == n
  {
    if k > 0 {
      var q, b := n / 256, (n % 256) as byte;
      var e := EncodeLE(n, k);
      assert e == [b] + EncodeLE(q, k - 1);
      assert e[1..] == EncodeLE(q, k - 1);
      DivBelow(n, Pow256(k - 1));
      DecodeEncodeLE(q, k - 1);
      assert DecodeLE(e) == b as nat + 256 * q;
    }
  }

  lemma {:induction false} EncodeDecodeLE(s: seq<byte>)
    ensures EncodeLE(DecodeLE(s), |s|) == s
  {
    if s != [] {
      var d := DecodeLE(s);
      assert d == DecodeLE(s[1..]) * 256 + s[0] as nat;
      SplitByte(DecodeLE(s[1..]), s[0]);
      EncodeDecodeLE(s[1..]);
      assert s == [s[0]] + s[1..];
    }
  }

  /** The outcome of reading from a stream: the error flag set (Failure), or the
      value read and the bytes left in the stream. */
  datatype Decoded<+T> = Failure | Success(value: T, rest: seq<byte>) {
    predicate IsFailure() { Failure? }

    function PropagateFailure<U>(): Decoded<U>
      requires Failure?
    {
      Failure
    }

    function Extract(): Decoded<T>
      requires Success?
    {
      this
    }
  }

  function EncodeU64(n: U64): (r: seq<byte>)
    ensures |r| == U64_SIZE
  {
    EncodeLE(n, U64_SIZE)
  }

  function EncodeU128(n: U128): (r: seq<byte>)
    ensures |r| == U128_SIZE
  {
    EncodeBE(n, U128_SIZE)
  }

  /** rai::read of a 256-bit union: fails when fewer than 32 bytes remain. */
  function ReadHash(s: seq<byte>): (r: Decoded<Hash>)
    ensures r.Success? <==> |s| >= HASH_SIZE
    ensures r.Success? ==> r.value + r.rest == s && |r.rest| == |s| - HASH_SIZE
  {
    if |s| < HASH_SIZE then Failure else Success(s[..HASH_SIZE], s[HASH_SIZE..])
  }

  /** rai::read of a uint64_t. */
  function ReadU64(s: seq<byte>): (r: Decoded<U64>)
    ensures r.Success? <==> |s| >= U64_SIZE
    ensures r.Success? ==> EncodeU64(r.value) + r.rest == s && |r.rest| == |s| - U64_SIZE
  {
    if |s| < U64_SIZE then Failure
    else
      EncodeDecodeLE(s[..U64_SIZE]);
      Pow256Limits();
      assert s == s[..U64_SIZE] + s[U64_SIZE..];
      Success(DecodeLE(s[..U64_SIZE]), s[U64_SIZE..])
  }

  /** rai::read of a uint128_union's bytes. */
  function ReadU128(s: seq<byte>): (r: Decoded<U128>)
    ensures r.Success? <==> |s| >= U128_SIZE
    ensures r.Success? ==> EncodeU128(r.value) + r.rest == s && |r.rest| == |s| - U128_SIZE
  {
    if |s| < U128_SIZE then Failure
    else
      EncodeDecodeBE(s[..U128_SIZE]);
      Pow256Limits();
      assert s == s[..U128_SIZE] + s[U128_SIZE..];
      Success(DecodeBE(s[..U128_SIZE]), s[U128_SIZE..])
  }

  lemma ReadHashOf(h: Hash, rest: seq<byte>)
    ensures ReadHash(h + rest) == Success(h, rest)
  {
    assert (h + rest)[..HASH_SIZE] == h;
  }

  lemma ReadU64Of(n: U64, rest: seq<byte>)
    ensures ReadU64(EncodeU64(n) + rest) == Success(n, rest)
  {
    var e := EncodeU64(n);
    assert (e + rest)[..U64_SIZE] == e;
    assert (e + rest)[U64_SIZE..] == rest;
    Pow256Limits();
    DecodeEncodeLE(n, U64_SIZE);
  }

  lemma ReadU128Of(n: U128, rest: seq<byte>)
    ensures ReadU128(EncodeU128(n) + rest) == Success(n, rest)
  {
    var e := EncodeU128(n);
    assert (e + rest)[..U128_SIZE] == e;
    assert (e + rest)[U128_SIZE..] == rest;
    Pow256Limits();
    DecodeEncodeBE(n, U128_SIZE);
  }
}
