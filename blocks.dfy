/** The block graph the resolvers walk: the five block variants, the store they
    live in (the block table and the block_info balance cache, keyed by block
    hash) and the sentinels of rai/common.hpp. */
module Blocks {
  import opened Codec
  import opened Records

  /** The all-zero 256-bit value: the "no block" that ends a backward walk
      (`current.is_zero ()`) and the previous of a state block that opens its
      account. */
  const ZERO: Hash := [0, 0, 0, 0, 0, 0, 0, 0, 0, 0, 0, 0, 0, 0, 0, 0, 0, 0, 0, 0, 0, 0, 0, 0, 0, 0, 0, 0, 0, 0, 0, 0]

  /** not_a_block: a block hash that compares unequal to any real block. Its
      value is defined outside the header; the model fixes it to the number 1
      and requires of every store that it holds no block under it. */
  const NOT_A_BLOCK: Hash :=
    [0, 0, 0, 0, 0, 0, 0, 0, 0, 0, 0, 0, 0, 0, 0, 0, 0, 0, 0, 0, 0, 0, 0, 0, 0, 0, 0, 0, 0, 0, 0, 1]

  /** not_an_account: an account number unequal to any real account. Its
      value is defined outside the header; the model fixes it to the largest
      256-bit number, so that it differs from the zero key that the burn
      account and an opening state block's previous use. */
  const NOT_AN_ACCOUNT: Account :=
    [255, 255, 255, 255, 255, 255, 255, 255, 255, 255, 255, 255, 255, 255, 255, 255,
     255, 255, 255, 255, 255, 255, 255, 255, 255, 255, 255, 255, 255, 255, 255, 255]

  /** genesis_amount: the whole supply, the largest uint128. */
  const GENESIS_AMOUNT: U128 := U128_LIMIT - 1

  /** A block, one constructor per block_visitor override. Signatures and
      proof-of-work values are left out: no resolver reads them. */
  datatype Block =
    | Send(previous: Hash, destination: Account, balance: U128)
    | Receive(previous: Hash, source: Hash)
    | Open(source: Hash, representative: Account, account: Account)
    | Change(previous: Hash, representative: Account)
    | State(account: Account, previous: Hash, representative: Account, balance: U128, link: Hash)

  /** The first block of an account chain: an open block, or a state block
      with no previous block. */
  predicate OpensAccount(b: Block) {
    b.Open? || (b.State? && b.previous == ZERO)
  }

  /** block::root: the chain position a block claims. A block that opens an
      account claims the account itself; every other block claims the block
      it follows, which is one of the blocks a resolver may step to. */
  function Root(b: Block): (r: Hash)
    ensures OpensAccount(b) ==> r == b.account
    ensures !OpensAccount(b) ==> r == b.previous && r in Links(b)
  {
    match b
    case Open(_, _, account) => account
    case State(account, previous, _, _, _) => if previous == ZERO then account else previous
    case Send(previous, _, _) => previous
    case Receive(previous, _) => previous
    case Change(previous, _) => previous
  }

  /** The hashes a resolver may step to from b: its previous block and, for a
      receive or open, the send it collects. */
  function Links(b: Block): set<Hash> {
    match b
    case Send(previous, _, _) => {previous}
    case Receive(previous, source) => {previous, source}
    case Open(source, _, _) => {source}
    case Change(previous, _) => {previous}
    case State(_, previous, _, _, _) => {previous}
  }

  /** One transaction's view of the block store. `genesisAccount` is the
      network's genesis_account (test, beta and live differ). */
  datatype Ledger = Ledger(
    blocks: map<Hash, Block>,
    blockInfo: map<Hash, BlockInfo>,
    genesisAccount: Account)

  /** A rank that strictly decreases along every link between stored blocks:
      the block graph is acyclic, so every backward walk ends. */
  ghost predicate Ranked(blocks: map<Hash, Block>, rank: map<Hash, nat>) {
    forall h :: h in blocks ==> h in rank && LinksBelow(blocks, rank, h)
  }

  ghost predicate LinksBelow(blocks: map<Hash, Block>, rank: map<Hash, nat>, h: Hash)
    requires h in blocks && h in rank
  {
    forall l :: l in Links(blocks[h]) && l in blocks ==> l in rank && rank[l] < rank[h]
  }

  /** The previous block of every send, receive and change is stored, and so is
      that of every state block that has one: the walks dereference it without
      a check. */
  ghost predicate Closed(blocks: map<Hash, Block>) {
    forall h :: h in blocks ==> PreviousStored(blocks, blocks[h])
  }

  ghost predicate PreviousStored(blocks: map<Hash, Block>, b: Block) {
    match b
    case Open(_, _, _) => true
    case State(_, previous, _, _, _) => previous == ZERO || previous in blocks
    case Send(previous, _, _) => previous in blocks
    case Receive(previous, _) => previous in blocks
    case Change(previous, _) => previous in blocks
  }

  /** What the resolvers need of the store they read. */
  ghost predicate Valid(L: Ledger, rank: map<Hash, nat>) {
    && ZERO !in L.blocks
    && NOT_A_BLOCK !in L.blocks
    && Ranked(L.blocks, rank)
    && Closed(L.blocks)
  }

  /** The height of h above the bottom of the graph; 0 for a hash that names
      no stored block. Every walk step lowers it. */
  ghost function Depth(L: Ledger, rank: map<Hash, nat>, h: Hash): nat
    requires Ranked(L.blocks, rank)
  {
    if h in L.blocks then rank[h] + 1 else 0
  }

  lemma LinkLowersDepth(L: Ledger, rank: map<Hash, nat>, h: Hash, l: Hash)
    requires Ranked(L.blocks, rank)
    requires h in L.blocks && l in Links(L.blocks[h])
    ensures Depth(L, rank, l) < Depth(L, rank, h)
  {
    assert LinksBelow(L.blocks, rank, h);
  }

  // ---------------------------------------------------------------------------
  // block_counts

  /** The five kinds of block that block_counts has a counter for. */
  datatype Kind = SendKind | ReceiveKind | OpenKind | ChangeKind | StateKind

  function KindOf(b: Block): Kind {
    match b
    case Send(_, _, _) => SendKind
    case Receive(_, _) => ReceiveKind
    case Open(_, _, _) => OpenKind
    case Change(_, _) => ChangeKind
    case State(_, _, _, _, _) => StateKind
  }

  /** How many of `blocks` are of kind k, counted from the front. */
  function Occurrences(blocks: seq<Block>, k: Kind): (n: nat)
    ensures n <= |blocks|
  {
    if blocks == [] then 0
    else (if KindOf(blocks[0]) == k then 1 else 0) + Occurrences(blocks[1..], k)
  }

  lemma {:induction false} OccurrencesSnoc(blocks: seq<Block>, b: Block, k: Kind)
    ensures Occurrences(blocks + [b], k) == Occurrences(blocks, k) + (if KindOf(b) == k then 1 else 0)
  {
    if blocks != [] {
      assert (blocks + [b])[1..] == blocks[1..] + [b];
      OccurrencesSnoc(blocks[1..], b, k);
    }
  }

  /** The number of stored blocks of each kind (size_t counters). */
  datatype BlockCounts = BlockCounts(send: U64, receive: U64, open: U64, change: U64, state: U64)
  {
    /** The counter for kind k. */
    function Of(k: Kind): U64 {
      match k
      case SendKind => send
      case ReceiveKind => receive
      case OpenKind => open
      case ChangeKind => change
      case StateKind => state
    }

    /** block_counts::sum, in size_t arithmetic: the exact total while it
        fits in 64 bits, and otherwise the total less a multiple of 2^64. */
    function Sum(): (r: U64)
      ensures send + receive + open + change + state < U64_LIMIT ==> r == send + receive + open + change + state
      ensures r <= send + receive + open + change + state
      ensures (send + receive + open + change + state - r) % U64_LIMIT == 0
    {
      (send + receive + open + change + state) % U64_LIMIT
    }
  }

  /** The counters after one more block of b's kind. */
  function Count(c: BlockCounts, b: Block): BlockCounts
    requires c.send + c.receive + c.open + c.change + c.state < U64_LIMIT - 1
  {
    match b
    case Send(_, _, _) => c.(send := c.send + 1)
    case Receive(_, _) => c.(receive := c.receive + 1)
    case Open(_, _, _) => c.(open := c.open + 1)
    case Change(_, _) => c.(change := c.change + 1)
    case State(_, _, _, _, _) => c.(state := c.state + 1)
  }

  /** How block_counts is filled from the block tables: one counter per kind.
      The counters add up to the number of blocks counted, and so does `sum`:
      no size_t wrap while there are fewer than 2^64 blocks. */
  function CountKinds(blocks: seq<Block>): (c: BlockCounts)
    requires |blocks| < U64_LIMIT
    ensures c.send + c.receive + c.open + c.change + c.state == |blocks|
    ensures c.Sum() == |blocks|
  {
    if blocks == [] then BlockCounts(0, 0, 0, 0, 0)
    else
      Count(CountKinds(blocks[..|blocks| - 1]), blocks[|blocks| - 1])
  }

  /** Counting one block raises its own kind's counter and no other. */
  lemma CountOf(c: BlockCounts, b: Block, k: Kind)
    requires c.send + c.receive + c.open + c.change + c.state < U64_LIMIT - 1
    ensures Count(c, b).Of(k) == c.Of(k) + (if KindOf(b) == k then 1 else 0)
  {
  }

  /** Each counter holds the number of blocks of its own kind. */
  lemma {:induction false} CountKindsByKind(blocks: seq<Block>, k: Kind)
    requires |blocks| < U64_LIMIT
    ensures CountKinds(blocks).Of(k) == Occurrences(blocks, k)
  {
    if blocks != [] {
      var n := |blocks| - 1;
      var prior := CountKinds(blocks[..n]);
      assert CountKinds(blocks) == Count(prior, blocks[n]);
      CountOf(prior, blocks[n], k);
      CountKindsByKind(blocks[..n], k);
      assert blocks == blocks[..n] + [blocks[n]];
      OccurrencesSnoc(blocks[..n], blocks[n], k);
    }
  }
}
