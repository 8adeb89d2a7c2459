/** The ledger records of rai/common.hpp and their stream formats: each
    `serialize` writes the fields in declaration order, each `deserialize`
    reads them back in the same order and reports an error when the stream
    runs short. */
module Records {
  import opened Codec

  type Account = Hash

  lemma Concat6(a: seq<byte>, b: seq<byte>, c: seq<byte>, d: seq<byte>, e: seq<byte>,
                f: seq<byte>, rest: seq<byte>)
    ensures a + b + c + d + e + f + rest == a + (b + (c + (d + (e + (f + rest)))))
  {
  }

  // ---------------------------------------------------------------------------
  // account_info

  /** Latest information about an account. `modified` is seconds since the
      POSIX epoch; `tokenName`/`tokenBalance` are the auxiliary token ledger. */
  datatype AccountInfo = AccountInfo(
    head: Hash,
    repBlock: Hash,
    openBlock: Hash,
    balance: U128,
    modified: U64,
    blockCount: U64,
    tokenName: U64,
    tokenBalance: U128)
  {
    /** The value as the base form carries it: the token fields at their
        default-constructed value, zero. */
    function Base(): AccountInfo {
      this.(tokenName := 0, tokenBalance := 0)
    }
  }

  const ACCOUNT_INFO_SIZE: nat := 3 * HASH_SIZE + U128_SIZE + 2 * U64_SIZE
  const TOKEN_ACCOUNT_INFO_SIZE: nat := ACCOUNT_INFO_SIZE + U64_SIZE + U128_SIZE

  /** account_info::serialize */
  function EncodeAccountInfo(x: AccountInfo): (r: seq<byte>)
    ensures |r| == ACCOUNT_INFO_SIZE
  {
    x.head + x.repBlock + x.openBlock + EncodeU128(x.balance)
    + EncodeU64(x.modified) + EncodeU64(x.blockCount)
  }

  /** account_info::token_serialize */
  function TokenEncodeAccountInfo(x: AccountInfo): (r: seq<byte>)
    ensures |r| == TOKEN_ACCOUNT_INFO_SIZE
  {
    EncodeAccountInfo(x) + EncodeU64(x.tokenName) + EncodeU128(x.tokenBalance)
  }

  /** account_info::deserialize into a default-constructed account_info. */
  function DecodeAccountInfo(s: seq<byte>): (r: Decoded<AccountInfo>)
    ensures r.Success? <==> |s| >= ACCOUNT_INFO_SIZE
    ensures r.Success? ==> |r.rest| == |s| - ACCOUNT_INFO_SIZE && r.value == r.value.Base()
  {
    var head :- ReadHash(s);
    var repBlock :- ReadHash(head.rest);
    var openBlock :- ReadHash(repBlock.rest);
    var balance :- ReadU128(openBlock.rest);
    var modified :- ReadU64(balance.rest);
    var blockCount :- ReadU64(modified.rest);
    Success(AccountInfo(head.value, repBlock.value, openBlock.value, balance.value,
                        modified.value, blockCount.value, 0, 0),
            blockCount.rest)
  }

  /** account_info::token_deserialize */
  function TokenDecodeAccountInfo(s: seq<byte>): (r: Decoded<AccountInfo>)
    ensures r.Success? <==> |s| >= TOKEN_ACCOUNT_INFO_SIZE
    ensures r.Success? ==> |r.rest| == |s| - TOKEN_ACCOUNT_INFO_SIZE
  {
    var base :- DecodeAccountInfo(s);
    var tokenName :- ReadU64(base.rest);
    var tokenBalance :- ReadU128(tokenName.rest);
    Success(base.value.(tokenName := tokenName.value, tokenBalance := tokenBalance.value),
            tokenBalance.rest)
  }

  lemma AccountInfoRoundTrip(x: AccountInfo, rest: seq<byte>)
    ensures DecodeAccountInfo(EncodeAccountInfo(x) + rest) == Success(x.Base(), rest)
  {
    var cnt := EncodeU64(x.blockCount) + rest;
    var mod := EncodeU64(x.modified) + cnt;
    var bal := EncodeU128(x.balance) + mod;
    var open := x.openBlock + bal;
    var rep := x.repBlock + open;
    Concat6(x.head, x.repBlock, x.openBlock, EncodeU128(x.balance), EncodeU64(x.modified),
            EncodeU64(x.blockCount), rest);
    ReadHashOf(x.head, rep);
    ReadHashOf(x.repBlock, open);
    ReadHashOf(x.openBlock, bal);
    ReadU128Of(x.balance, mod);
    ReadU64Of(x.modified, cnt);
    ReadU64Of(x.blockCount, rest);
  }

  lemma TokenAccountInfoRoundTrip(x: AccountInfo, rest: seq<byte>)
    ensures TokenDecodeAccountInfo(TokenEncodeAccountInfo(x) + rest) == Success(x, rest)
  {
    var tokens := EncodeU64(x.tokenName) + (EncodeU128(x.tokenBalance) + rest);
    assert TokenEncodeAccountInfo(x) + rest == EncodeAccountInfo(x) + tokens;
    AccountInfoRoundTrip(x, tokens);
    ReadU64Of(x.tokenName, EncodeU128(x.tokenBalance) + rest);
    ReadU128Of(x.tokenBalance, rest);
  }

  /** The base form ignores the token fields, and the token form is the base
      form followed by them, so a base reader consumes exactly the base prefix
      of a token record. */
  lemma AccountInfoTokenLayout(x: AccountInfo, name: U64, amount: U128)
    ensures EncodeAccountInfo(x.(tokenName := name, tokenBalance := amount)) == EncodeAccountInfo(x)
    ensures DecodeAccountInfo(TokenEncodeAccountInfo(x))
         == Success(x.Base(), EncodeU64(x.tokenName) + EncodeU128(x.tokenBalance))
  {
    AccountInfoRoundTrip(x, EncodeU64(x.tokenName) + EncodeU128(x.tokenBalance));
    assert TokenEncodeAccountInfo(x)
        == EncodeAccountInfo(x) + (EncodeU64(x.tokenName) + EncodeU128(x.tokenBalance));
  }

  /** deserialize reports an error exactly when the stream is shorter than the
      record, and on success the bytes it consumed are the record's encoding. */
  lemma AccountInfoDecodeExact(s: seq<byte>)
    ensures DecodeAccountInfo(s).Failure? <==> |s| < ACCOUNT_INFO_SIZE
    ensures DecodeAccountInfo(s).Success? ==>
              EncodeAccountInfo(DecodeAccountInfo(s).value) + DecodeAccountInfo(s).rest == s
  {
    if |s| >= ACCOUNT_INFO_SIZE {
      var h := ReadHash(s);
      var r := ReadHash(h.rest);
      var o := ReadHash(r.rest);
      var b := ReadU128(o.rest);
      var m := ReadU64(b.rest);
      var c := ReadU64(m.rest);
      assert DecodeAccountInfo(s)
          == Success(AccountInfo(h.value, r.value, o.value, b.value, m.value, c.value, 0, 0), c.rest);
      Concat6(h.value, r.value, o.value, EncodeU128(b.value), EncodeU64(m.value), EncodeU64(c.value), c.rest);
    }
  }

  /** token_deserialize reports an error exactly when the stream is shorter
      than a token record; on success the bytes it consumed are the token
      record's encoding. */
  lemma TokenAccountInfoDecodeExact(s: seq<byte>)
    ensures TokenDecodeAccountInfo(s).Failure? <==> |s| < TOKEN_ACCOUNT_INFO_SIZE
    ensures TokenDecodeAccountInfo(s).Success? ==>
              TokenEncodeAccountInfo(TokenDecodeAccountInfo(s).value) + TokenDecodeAccountInfo(s).rest == s
  {
    if |s| >= TOKEN_ACCOUNT_INFO_SIZE {
      var base := DecodeAccountInfo(s);
      var name := ReadU64(base.rest);
      var amount := ReadU128(name.rest);
      var x := base.value.(tokenName := name.value, tokenBalance := amount.value);
      var e := EncodeAccountInfo(base.value);
      assert TokenDecodeAccountInfo(s) == Success(x, amount.rest);
      assert s == e + (EncodeU64(name.value) + (EncodeU128(amount.value) + amount.rest)) by {
        AccountInfoDecodeExact(s);
      }
      assert TokenEncodeAccountInfo(x) == e + EncodeU64(name.value) + EncodeU128(amount.value) by {
        AccountInfoTokenLayout(base.value, name.value, amount.value);
      }
      assert TokenEncodeAccountInfo(x) + amount.rest == s;
    }
  }

  // ---------------------------------------------------------------------------
  // pending_info

  /** An uncollected send: the sending account and the amount, plus the token
      ledger's token id and token amount. */
  datatype PendingInfo = PendingInfo(source: Account, amount: U128, tokenName: U64, tokenAmount: U128)
  {
    function Base(): PendingInfo {
      this.(tokenName := 0, tokenAmount := 0)
    }
  }

  const PENDING_INFO_SIZE: nat := HASH_SIZE + U128_SIZE
  const TOKEN_PENDING_INFO_SIZE: nat := PENDING_INFO_SIZE + U64_SIZE + U128_SIZE

  /** pending_info::serialize */
  function EncodePendingInfo(x: PendingInfo): (r: seq<byte>)
    ensures |r| == PENDING_INFO_SIZE
  {
    x.source + EncodeU128(x.amount)
  }

  /** pending_info::token_serialize */
  function TokenEncodePendingInfo(x: PendingInfo): (r: seq<byte>)
    ensures |r| == TOKEN_PENDING_INFO_SIZE
  {
    EncodePendingInfo(x) + EncodeU64(x.tokenName) + EncodeU128(x.tokenAmount)
  }

  /** pending_info::deserialize into a default-constructed pending_info. */
  function DecodePendingInfo(s: seq<byte>): (r: Decoded<PendingInfo>)
    ensures r.Success? <==> |s| >= PENDING_INFO_SIZE
    ensures r.Success? ==> |r.rest| == |s| - PENDING_INFO_SIZE && r.value == r.value.Base()
  {
    var source :- ReadHash(s);
    var amount :- ReadU128(source.rest);
    Success(PendingInfo(source.value, amount.value, 0, 0), amount.rest)
  }

  /** pending_info::token_deserialize */
  function TokenDecodePendingInfo(s: seq<byte>): (r: Decoded<PendingInfo>)
    ensures r.Success? <==> |s| >= TOKEN_PENDING_INFO_SIZE
    ensures r.Success? ==> |r.rest| == |s| - TOKEN_PENDING_INFO_SIZE
  {
    var base :- DecodePendingInfo(s);
    var tokenName :- ReadU64(base.rest);
    var tokenAmount :- ReadU128(tokenName.rest);
    Success(base.value.(tokenName := tokenName.value, tokenAmount := tokenAmount.value),
            tokenAmount.rest)
  }

  lemma PendingInfoRoundTrip(x: PendingInfo, rest: seq<byte>)
    ensures DecodePendingInfo(EncodePendingInfo(x) + rest) == Success(x.Base(), rest)
  {
    assert EncodePendingInfo(x) + rest == x.source + (EncodeU128(x.amount) + rest);
    ReadHashOf(x.source, EncodeU128(x.amount) + rest);
    ReadU128Of(x.amount, rest);
  }

  lemma TokenPendingInfoRoundTrip(x: PendingInfo, rest: seq<byte>)
    ensures TokenDecodePendingInfo(TokenEncodePendingInfo(x) + rest) == Success(x, rest)
  {
    var tokens := EncodeU64(x.tokenName) + (EncodeU128(x.tokenAmount) + rest);
    assert TokenEncodePendingInfo(x) + rest == EncodePendingInfo(x) + tokens;
    PendingInfoRoundTrip(x, tokens);
    ReadU64Of(x.tokenName, EncodeU128(x.tokenAmount) + rest);
    ReadU128Of(x.tokenAmount, rest);
  }

  lemma PendingInfoTokenLayout(x: PendingInfo, name: U64, amount: U128)
    ensures EncodePendingInfo(x.(tokenName := name, tokenAmount := amount)) == EncodePendingInfo(x)
    ensures DecodePendingInfo(TokenEncodePendingInfo(x))
         == Success(x.Base(), EncodeU64(x.tokenName) + EncodeU128(x.tokenAmount))
  {
    PendingInfoRoundTrip(x, EncodeU64(x.tokenName) + EncodeU128(x.tokenAmount));
    assert TokenEncodePendingInfo(x)
        == EncodePendingInfo(x) + (EncodeU64(x.tokenName) + EncodeU128(x.tokenAmount));
  }

  lemma PendingInfoDecodeExact(s: seq<byte>)
    ensures DecodePendingInfo(s).Failure? <==> |s| < PENDING_INFO_SIZE
    ensures DecodePendingInfo(s).Success? ==>
              EncodePendingInfo(DecodePendingInfo(s).value) + DecodePendingInfo(s).rest == s
  {
    if |s| >= PENDING_INFO_SIZE {
      var h := ReadHash(s);
      var a := ReadU128(h.rest);
      assert s == h.value + (EncodeU128(a.value) + a.rest);
    }
  }

  /** token_deserialize fails exactly on a stream shorter than a token
      record; on success the consumed bytes are the token record's encoding. */
  lemma TokenPendingInfoDecodeExact(s: seq<byte>)
    ensures TokenDecodePendingInfo(s).Failure? <==> |s| < TOKEN_PENDING_INFO_SIZE
    ensures TokenDecodePendingInfo(s).Success? ==>
              TokenEncodePendingInfo(TokenDecodePendingInfo(s).value) + TokenDecodePendingInfo(s).rest == s
  {
    if |s| >= TOKEN_PENDING_INFO_SIZE {
      var base := DecodePendingInfo(s);
      var name := ReadU64(base.rest);
      var amount := ReadU128(name.rest);
      var x := base.value.(tokenName := name.value, tokenAmount := amount.value);
      var e := EncodePendingInfo(base.value);
      assert TokenDecodePendingInfo(s) == Success(x, amount.rest);
      assert s == e + (EncodeU64(name.value) + (EncodeU128(amount.value) + amount.rest)) by {
        PendingInfoDecodeExact(s);
      }
      assert TokenEncodePendingInfo(x) == e + EncodeU64(name.value) + EncodeU128(amount.value) by {
        PendingInfoTokenLayout(base.value, name.value, amount.value);
      }
      assert TokenEncodePendingInfo(x) + amount.rest == s;
    }
  }

  // ---------------------------------------------------------------------------
  // pending_key

  /** The key of a pending entry: the destination account and the hash of the
      send block. */
  datatype PendingKey = PendingKey(account: Account, hash: Hash)

  const PENDING_KEY_SIZE: nat := 2 * HASH_SIZE

  /** pending_key::serialize */
  function EncodePendingKey(x: PendingKey): (r: seq<byte>)
    ensures |r| == PENDING_KEY_SIZE
  {
    x.account + x.hash
  }

  /** pending_key::deserialize */
  function DecodePendingKey(s: seq<byte>): (r: Decoded<PendingKey>)
    ensures r.Success? <==> |s| >= PENDING_KEY_SIZE
    ensures r.Success? ==> |r.rest| == |s| - PENDING_KEY_SIZE
  {
    var account :- ReadHash(s);
    var hash :- ReadHash(account.rest);
    Success(PendingKey(account.value, hash.value), hash.rest)
  }

  lemma PendingKeyRoundTrip(x: PendingKey, rest: seq<byte>)
    ensures DecodePendingKey(EncodePendingKey(x) + rest) == Success(x, rest)
  {
    assert EncodePendingKey(x) + rest == x.account + (x.hash + rest);
    ReadHashOf(x.account, x.hash + rest);
    ReadHashOf(x.hash, rest);
  }

  lemma PendingKeyDecodeExact(s: seq<byte>)
    ensures DecodePendingKey(s).Failure? <==> |s| < PENDING_KEY_SIZE
    ensures DecodePendingKey(s).Success? ==>
              EncodePendingKey(DecodePendingKey(s).value) + DecodePendingKey(s).rest == s
  {
    if |s| >= PENDING_KEY_SIZE {
      var a := ReadHash(s);
      var h := ReadHash(a.rest);
      assert s == a.value + (h.value + h.rest);
    }
  }

  // ---------------------------------------------------------------------------
  // block_info

  /** The cached (account, balance) of a block whose format does not carry
      its balance. */
  datatype BlockInfo = BlockInfo(account: Account, balance: U128)

  const BLOCK_INFO_SIZE: nat := HASH_SIZE + U128_SIZE

  /** block_info::serialize */
  function EncodeBlockInfo(x: BlockInfo): (r: seq<byte>)
    ensures |r| == BLOCK_INFO_SIZE
  {
    x.account + EncodeU128(x.balance)
  }

  /** block_info::deserialize */
  function DecodeBlockInfo(s: seq<byte>): (r: Decoded<BlockInfo>)
    ensures r.Success? <==> |s| >= BLOCK_INFO_SIZE
    ensures r.Success? ==> |r.rest| == |s| - BLOCK_INFO_SIZE
  {
    var account :- ReadHash(s);
    var balance :- ReadU128(account.rest);
    Success(BlockInfo(account.value, balance.value), balance.rest)
  }

  lemma BlockInfoRoundTrip(x: BlockInfo, rest: seq<byte>)
    ensures DecodeBlockInfo(EncodeBlockInfo(x) + rest) == Success(x, rest)
  {
    assert EncodeBlockInfo(x) + rest == x.account + (EncodeU128(x.balance) + rest);
    ReadHashOf(x.account, EncodeU128(x.balance) + rest);
    ReadU128Of(x.balance, rest);
  }

  lemma BlockInfoDecodeExact(s: seq<byte>)
    ensures DecodeBlockInfo(s).Failure? <==> |s| < BLOCK_INFO_SIZE
    ensures DecodeBlockInfo(s).Success? ==>
              EncodeBlockInfo(DecodeBlockInfo(s).value) + DecodeBlockInfo(s).rest == s
  {
    if |s| >= BLOCK_INFO_SIZE {
      var a := ReadHash(s);
      var b := ReadU128(a.rest);
      assert s == a.value + (EncodeU128(b.value) + b.rest);
    }
  }
}
