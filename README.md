# RaiBlocks ledger core (rai/common.hpp) in Dafny

This project models the ledger core declared in `rai/common.hpp` of the RaiBlocks node. It covers:

- **Ledger records and their stream formats.** The records are `account_info`, `pending_info`, `pending_key` and `block_info`, each with a `serialize`/`deserialize` pair. `account_info` and `pending_info` also have a token form, which appends the auxiliary token ledger's `token_name` and token amount. `deserialize` returns an error flag when the stream runs short; here that flag is the `Failure` case of `Codec.Decoded`.
- **`block_counts`** and its `sum`, in `size_t` arithmetic.
- **The three resolvers** `balance_visitor`, `amount_visitor` and `representative_visitor`.
  - Each `compute` walks the block graph backward by overwriting `current`. The balance walk runs until `current` is the zero hash and adds to `result` on the way. The amount walk follows `from_send` until it reaches a block whose amount it can state, then sets `result` once and makes `current` zero. The representative walk runs until `result` is set. Here each walk is a method with a `while` loop over those two variables.
  - Each walk is proved equal to a recursive specification function (`Balance`, `Amount`, `Representative`).
  - Lemmas about those functions state what the walks mean.
  - The block store is a `map` from block hash to block. The `block_info` cache is a second map.
  - The LMDB transaction is not modelled.
- **Vote bookkeeping.**
  - A vote is classified into `vote_code` from its signature and from the highest sequence number seen from its account.
  - One election's `votes` object keeps the block each representative supports in `rep_votes`. `vote` updates one entry and reports a `tally_result`. `uncontested` checks that every entry names the same block.
- **The result types** `process_result`, `process_return`, `vote_code` and `tally_result`.

`rai/common.hpp` is a header: it declares these operations but does not define them. The definitions in this model are reconstructions of the node's behaviour, stated in the module comments:

- `Resolvers` holds the per-block-kind rules of the visitors.
- `Voting` holds vote validation (the ledger's `vote_validate` and `vote_max`) and the `votes` methods.

**Equal sequence numbers.** The header comment on `vote_code::replay` (rai/common.hpp:227-228) calls a replay a vote that "does not have the highest sequence number". A vote whose sequence number equals the highest seen is classified `vote`: `vote_max` keeps the stored vote only when its sequence number is strictly higher.

Layout:

| file | module | what |
|---|---|---|
| codec.dfy | Codec | bytes, uint64 / uint128 / 256-bit values, stream reads that fail when the stream runs short |
| records.dfy | Records | account_info, pending_info, pending_key, block_info and their encodings |
| blocks.dfy | Blocks | the five block kinds, the block store, sentinels, block_counts |
| resolvers.dfy | Resolvers | balance, amount and representative resolution |
| outcomes.dfy | Outcomes | process_result, process_return, vote_code, tally_result |
| voting.dfy | Voting | vote, vote classification, the votes election object |

## Model

| member | source | states |
|---|---|---|
| Codec.DecodeEncodeBE | rai/common.hpp:134 | reading back the big-endian bytes of an amount gives the amount, for every value below 2^(8k) |
| Codec.EncodeDecodeBE | rai/common.hpp:134 | every byte string is the big-endian encoding of the number it denotes: the amount encoding is onto |
| Codec.DecodeEncodeLE | rai/common.hpp:136-137 | reading back the host-order bytes of a uint64_t gives the number |
| Codec.EncodeDecodeLE | rai/common.hpp:136-137 | every 8-byte string is the host-order encoding of some uint64_t |
| Codec.ReadHash | rai/common.hpp:131-133 | reading a 256-bit value fails exactly when fewer than 32 bytes remain; otherwise the value and the remaining bytes put back together are the stream |
| Codec.ReadU64 | rai/common.hpp:136-137 | reading a uint64_t fails exactly when fewer than 8 bytes remain; otherwise its encoding followed by the remaining bytes is the stream |
| Codec.ReadU128 | rai/common.hpp:134 | reading an amount fails exactly when fewer than 16 bytes remain; otherwise its encoding followed by the remaining bytes is the stream |
| Codec.ReadHashOf | rai/common.hpp:131-133 | a 256-bit value written to a stream is read back, and the rest of the stream is left untouched |
| Codec.ReadU64Of | rai/common.hpp:136-137 | a uint64_t written to a stream is read back, and the rest of the stream is left untouched |
| Codec.ReadU128Of | rai/common.hpp:134 | an amount written to a stream is read back, and the rest of the stream is left untouched |
| Records.EncodeAccountInfo | rai/common.hpp:124-137 | serialize writes exactly the 128 bytes of head, rep_block, open_block, balance, modified and block_count |
| Records.TokenEncodeAccountInfo | rai/common.hpp:125-139 | token_serialize writes exactly 152 bytes |
| Records.AccountInfoRoundTrip | rai/common.hpp:122-137 | deserialize after serialize succeeds and gives back every base field (the token fields at their default, zero), leaving any following bytes unread |
| Records.TokenAccountInfoRoundTrip | rai/common.hpp:123-139 | token_deserialize after token_serialize succeeds and gives back the whole record, token fields included |
| Records.AccountInfoTokenLayout | rai/common.hpp:124-139 | the base form does not depend on token_name or token_balance; a base deserialize of a token record reads the base fields and leaves exactly the two token fields in the stream |
| Records.DecodeAccountInfo | rai/common.hpp:126 | deserialize fails exactly when fewer than 128 bytes remain, consumes exactly 128 bytes on success, and yields a record whose token fields are zero |
| Records.TokenDecodeAccountInfo | rai/common.hpp:127 | token_deserialize fails exactly when fewer than 152 bytes remain and consumes exactly 152 bytes on success |
| Records.TokenAccountInfoDecodeExact | rai/common.hpp:127 | token_deserialize sets its error flag exactly when the stream is shorter than a token record; on success the consumed bytes are the token record's own encoding |
| Records.AccountInfoDecodeExact | rai/common.hpp:126 | deserialize sets its error flag exactly when the stream is shorter than a record; on success the consumed bytes are the record's own encoding |
| Records.EncodePendingInfo | rai/common.hpp:152-159 | serialize writes exactly the 48 bytes of source and amount |
| Records.TokenEncodePendingInfo | rai/common.hpp:153-161 | token_serialize writes exactly 72 bytes |
| Records.PendingInfoRoundTrip | rai/common.hpp:150-159 | deserialize after serialize gives back source and amount, token fields at zero |
| Records.TokenPendingInfoRoundTrip | rai/common.hpp:151-161 | token_deserialize after token_serialize gives back the whole record |
| Records.PendingInfoTokenLayout | rai/common.hpp:152-161 | the base form ignores the token fields; a base read of a token record leaves exactly the token fields |
| Records.DecodePendingInfo | rai/common.hpp:154 | deserialize fails exactly when fewer than 48 bytes remain, consumes exactly 48 bytes on success, and yields a record whose token fields are zero |
| Records.TokenDecodePendingInfo | rai/common.hpp:155 | token_deserialize fails exactly when fewer than 72 bytes remain and consumes exactly 72 bytes on success |
| Records.TokenPendingInfoDecodeExact | rai/common.hpp:155 | token_deserialize fails exactly on a stream shorter than a token record; on success the consumed bytes are the token record's encoding |
| Records.PendingInfoDecodeExact | rai/common.hpp:154 | deserialize fails exactly on a short stream; on success the consumed bytes are the record's encoding |
| Records.EncodePendingKey | rai/common.hpp:168-173 | serialize writes exactly the 64 bytes of account and hash |
| Records.PendingKeyRoundTrip | rai/common.hpp:166-173 | deserialize after serialize gives back account and hash |
| Records.DecodePendingKey | rai/common.hpp:169 | deserialize fails exactly when fewer than 64 bytes remain and consumes exactly 64 bytes on success |
| Records.PendingKeyDecodeExact | rai/common.hpp:169 | deserialize fails exactly on a short stream; on success the consumed bytes are the key's encoding |
| Records.EncodeBlockInfo | rai/common.hpp:181-186 | serialize writes exactly the 48 bytes of account and balance |
| Records.BlockInfoRoundTrip | rai/common.hpp:180-186 | deserialize after serialize gives back account and balance |
| Records.DecodeBlockInfo | rai/common.hpp:182 | deserialize fails exactly when fewer than 48 bytes remain and consumes exactly 48 bytes on success |
| Records.BlockInfoDecodeExact | rai/common.hpp:182 | deserialize fails exactly on a short stream; on success the consumed bytes are the record's encoding |
| Blocks.BlockCounts.Sum | rai/common.hpp:192 | sum is the exact total of the five counters while it fits in size_t, and otherwise that total reduced by a multiple of 2^64 (never more than the total) |
| Blocks.Root | rai/common.hpp:272-276 | the root that identifies an election is the account for a block that opens one (an open block, or a state block with no previous) and the previous block otherwise, one of the blocks the block links to |
| Blocks.CountKindsByKind | rai/common.hpp:193-197 | each of the send, receive, open, change and state counters holds exactly the number of blocks of its own kind |
| Blocks.CountKinds | rai/common.hpp:188-198 | counting blocks by kind gives counters that add up to the number of blocks, and sum returns that number (no size_t wrap below 2^64 blocks) |
| Resolvers.SentinelsDiffer | rai/common.hpp:292-297 | not_a_block differs from the zero hash that ends a walk, and not_an_account differs from both: it is not the zero key of the burn account |
| Resolvers.ComputeBalance | rai/common.hpp:35-50 | balance_visitor::compute returns the balance as of the block, as Balance defines it: the walk's partial sum plus the balance still to be found is invariant |
| Resolvers.ComputeAmount | rai/common.hpp:56-72 | amount_visitor::compute, following from_send to the collected send, returns the amount as Amount defines it |
| Resolvers.ComputeRepresentative | rai/common.hpp:78-93 | representative_visitor::compute returns the block hash Representative defines |
| Resolvers.RepresentativeIsNearestDeclaring | rai/common.hpp:78-93 | for a stored block the result is a stored block hash, not an account: the first block on the block's own chain that declares a representative (open, change or state). not_a_block is returned exactly when the hash names no stored block |
| Resolvers.AmountIgnoresOrigin | rai/common.hpp:56-72 | once the walk reaches a stored block, the amount does not depend on where the walk started |
| Resolvers.AmountFromSend | rai/common.hpp:67 | the amount of a receive block, or of an open block not opening genesis, is the amount of the block it collects; when that block is a send, it is what the send took off its sender's balance |
| Resolvers.BalanceMovesByAmount | rai/common.hpp:35-72 | the balance after each block kind is the previous balance moved by the block's amount: down for a send, up for a receive or open, unchanged (amount 0) for a change, toward the new balance for a state block |
| Resolvers.CachedBalanceAgrees | rai/common.hpp:35-50 | when every cached block_info balance is right, balance_visitor finds the same balance with the cache as without it |
| Resolvers.CachedAmountAgrees | rai/common.hpp:56-72 | the same for amount_visitor |
| Resolvers.GenesisSendOpen | rai/common.hpp:35-93 | after genesis sends an amount to an account that opens with it: genesis holds genesis_amount minus the amount, the new account holds the amount, the open's amount is the amount, and each block's representative is its account's declaring block |
| Voting.MaxOf | rai/common.hpp:214-229 | the vote kept for an account is never below the incoming vote's sequence number nor below the one on record, and is one of the two |
| Voting.Classify | rai/common.hpp:224-235 | a vote is invalid exactly when its signature fails; a `vote` result carries the vote itself; a `replay` result carries a vote with a strictly higher sequence number |
| Voting.ObserveNeverLowers | rai/common.hpp:214-229 | classifying a vote never forgets an account and never lowers the sequence number on record for one |
| Voting.RecordIsHighest | rai/common.hpp:214-229 | after any history of votes, an account has a vote on record exactly when it sent a signed vote, and that vote is its signed vote with the highest sequence number |
| Voting.ClassifyAgainstHistory | rai/common.hpp:214-229 | a signed vote is `vote` exactly when no earlier signed vote from its account has a higher sequence number, and `replay` exactly when one has; an unsigned vote is `invalid` whatever came before |
| Voting.VoteRecord.VoteMax | rai/common.hpp:214-229 | records and returns the higher of the incoming vote and the vote on record, leaving other accounts' records unchanged |
| Voting.VoteRecord.Validate | rai/common.hpp:224-235 | returns Classify's result and records the vote only when its signature verifies |
| Voting.Votes.constructor | rai/common.hpp:272-278 | an election is identified by its block's root and starts with that block supported by not_an_account |
| Voting.Votes.Vote | rai/common.hpp:263-278 | the voting account's entry becomes the vote's block and no other entry changes; the result is `vote` exactly for an account new to the election, `confirm` exactly when the account repeats its block, and `changed` exactly when it switches |
| Voting.Votes.Uncontested | rai/common.hpp:274-278 | returns true exactly when every entry of rep_votes names the same block |
| Voting.UncontestedIffOneCandidate | rai/common.hpp:274-278 | uncontested exactly when at most one distinct block has support |
| Voting.RunElection | rai/common.hpp:272-278 | constructing an election for a block and recording a sequence of votes leaves rep_votes equal to Tallied of those votes, so the Tallied lemmas hold of the object's state |
| Voting.TalliedKeys | rai/common.hpp:272-278 | after a sequence of votes, rep_votes has an entry for exactly the opening account and the accounts that voted: at most one block per account |
| Voting.TalliedIsLatest | rai/common.hpp:273-278 | each voting account's entry holds the block of that account's latest vote; later votes from other accounts leave it alone |
| Voting.TalliedKeepsOpening | rai/common.hpp:272-278 | the opening entry keeps the election's block while not_an_account casts no vote |
| Voting.AgreeingVotesUncontested | rai/common.hpp:272-274 | while every vote names the election's own block, every entry names it and the election is uncontested |
| Voting.SecondCandidateContests | rai/common.hpp:273-274 | a vote for a block other than one another account still supports makes the election contested, with at least two blocks supported |

## Left out

- keypair, ed25519 signing and verification: a signature check is a boolean parameter of vote validation.
- BLAKE2 hashing, `vote::hash` and the boost hash specialisation: hashes are opaque 32-byte values.
- LMDB: `MDB_val` constructors, `val()` and `deserialize_block`. The store is a map from block hash to block, and one transaction is one `Blocks.Ledger` value. The ledger's vote cache and vote table together are the single map in `Voting.VoteRecord`.
- Signatures and proof-of-work values of blocks. No resolver reads them, so `Blocks.Block` omits them. Block `operator==` is datatype equality over the remaining fields. This equality is also what `Voting.Votes.Vote` uses to tell `confirm` from `changed`, and what `Voting.Votes.Uncontested` uses to compare entries. So two blocks that differ only in signature or work count as the same block there.
- Vote serialisation, the stream constructors of `vote`, and `to_json`: they embed block serialisation, which is not part of this model.
- `genesis::initialize`, the network keys and genesis texts, and `protocol_version`. `genesis_account` is a field of the ledger. `genesis_amount` is the largest uint128.
- The block processor that produces `process_return`: only its result types are modelled, in `Outcomes`.
- The stake-weighted tally and the quorum: representative weights come from the ledger. `Voting.Votes.Vote` reports the per-account outcome that `votes::vote` computes.
- `Resolvers.ComputeBalance`, `Resolvers.ComputeAmount`, `Resolvers.ComputeRepresentative`: the header does not define the per-kind rules. The rules are stated in the Resolvers module comment.
- Walk termination: the header does not bound the walks. The model assumes an acyclic store (a `rank` that decreases along every link) in which every referenced previous block is stored.
- `Blocks.BlockCounts`: `size_t` is taken to be 64 bits wide. The counters are uint64 values and `sum` wraps at 2^64.
- `Blocks.NOT_AN_ACCOUNT`: the value of not_an_account is defined outside the header. The model fixes it to the largest 256-bit number, so that it differs from the zero burn account. The model does not stop a vote from being cast under that account. The lemmas about the opening entry of an election (`Voting.TalliedKeepsOpening`) assume that no such vote arrives.
- `Codec.ReadU64`: uint64 fields are written in the host's byte order, which the model fixes to little-endian. Amounts are 16 bytes, most significant first.
- `Records.DecodeAccountInfo`, `Records.DecodePendingInfo`: `deserialize` fills an existing object in place. A base `deserialize` therefore keeps that object's earlier `token_name` and token amount, and on a short stream it keeps the fields it has already read. The model returns a fresh record whose token fields are zero, and a bare `Failure` on a short stream. The zero token fields are an assumption: the default constructors (rai/common.hpp:119, 148) are declared but their definitions are not part of this model.
- `Records.AccountInfo`, `Records.PendingInfo`: `token_amount` is assumed to be a 128-bit amount like `amount`, because its definition is not part of this model.
- `Voting.Votes.constructor`: the opening entry under not_an_account is reconstructed from the node's behaviour, since the header shows only the constructor's signature. Because of that entry, a first vote for a block other than the opening one already contests the election.
