/** The derived-attribute resolvers of rai/common.hpp: balance_visitor,
    amount_visitor and representative_visitor. Each `compute` walks the block
    graph backward by overwriting its `current` field. The balance walk runs
    until `current` is the zero hash and adds to `result` on the way; the
    amount walk follows `from_send` until it reaches a block whose amount it
    can state, sets `result` once and makes `current` zero; the
    representative walk runs until `result` is set. Here `current` and
    `result` are the loop variables of a method and each visitor override is
    one arm of the match in the loop body.

    The header declares the overrides but not their bodies; the arms below
    state them: send and state blocks carry their own balance; receive adds
    the amount of the send it collects to the previous balance; open's balance
    is that amount; change keeps the previous balance; a receive or change
    block whose balance sits in the block_info cache takes it from there. The
    amount of a send is the drop from the previous balance, of a receive or
    open that of its send (from_send), of a change zero, and of a state block
    the distance between its balance and the previous one. All arithmetic is
    uint128_t, wrapping at 2^128. */
module Resolvers {
  import opened Codec
  import opened Records
  import opened Blocks

  /** uint128_t addition. */
  function AddWrap(a: U128, b: U128): U128 {
    if a + b < U128_LIMIT then a + b else a + b - U128_LIMIT
  }

  /** uint128_t subtraction. */
  function SubWrap(a: U128, b: U128): U128 {
    if a >= b then a - b else a - b + U128_LIMIT
  }

  lemma AddWrapShift(r: U128, a: U128, p: U128)
    ensures AddWrap(AddWrap(r, a), p) == AddWrap(r, AddWrap(p, a))
  {
  }

  lemma SentinelsDiffer()
    ensures ZERO != NOT_A_BLOCK
    ensures NOT_AN_ACCOUNT != ZERO && NOT_AN_ACCOUNT != NOT_A_BLOCK
  {
    assert ZERO[HASH_SIZE - 1] == 0;
    assert NOT_A_BLOCK[HASH_SIZE - 1] == 1;
    assert NOT_AN_ACCOUNT[HASH_SIZE - 1] == 255;
  }

  // ---------------------------------------------------------------------------
  // What each walk computes

  /** The balance as of block h; 0 for the zero hash, where the walk stops. */
  ghost function Balance(L: Ledger, rank: map<Hash, nat>, h: Hash): U128
    requires Valid(L, rank)
    requires h == ZERO || h in L.blocks
    decreases Depth(L, rank, h)
  {
    if h == ZERO then 0
    else
      assert PreviousStored(L.blocks, L.blocks[h]);
      match L.blocks[h]
      case Send(_, _, balance) => balance
      case State(_, _, _, balance, _) => balance
      case Receive(previous, source) =>
        if h in L.blockInfo then L.blockInfo[h].balance
        else
          LinkLowersDepth(L, rank, h, previous);
          LinkLowersDepth(L, rank, h, source);
          AddWrap(Balance(L, rank, previous), Amount(L, rank, source, source))
      case Open(source, _, _) =>
        LinkLowersDepth(L, rank, h, source);
        Amount(L, rank, source, source)
      case Change(previous, _) =>
        if h in L.blockInfo then L.blockInfo[h].balance
        else
          LinkLowersDepth(L, rank, h, previous);
          Balance(L, rank, previous)
  }

  /** The amount moved by the block the walk started from (`origin`), once the
      walk has reached `current`. A hash that names no stored block ends the
      walk with genesis_amount when the walk started from the genesis account
      and with 0 otherwise. */
  ghost function Amount(L: Ledger, rank: map<Hash, nat>, origin: Hash, current: Hash): U128
    requires Valid(L, rank)
    decreases Depth(L, rank, current)
  {
    if current == ZERO then 0
    else if current !in L.blocks then
      if origin == L.genesisAccount then GENESIS_AMOUNT else 0
    else
      assert PreviousStored(L.blocks, L.blocks[current]);
      match L.blocks[current]
      case Send(previous, _, balance) =>
        LinkLowersDepth(L, rank, current, previous);
        SubWrap(Balance(L, rank, previous), balance)
      case Receive(_, source) =>
        LinkLowersDepth(L, rank, current, source);
        Amount(L, rank, origin, source)
      case Open(source, _, _) =>
        if source != L.genesisAccount then
          LinkLowersDepth(L, rank, current, source);
          Amount(L, rank, origin, source)
        else GENESIS_AMOUNT
      case Change(_, _) => 0
      case State(_, previous, _, balance, _) =>
        LinkLowersDepth(L, rank, current, previous);
        var prior := Balance(L, rank, previous);
        if balance < prior then prior - balance else balance - prior
  }

  /** The block that declared the representative in effect at h; not_a_block
      when the walk meets a hash with no stored block. */
  ghost function Representative(L: Ledger, rank: map<Hash, nat>, h: Hash): Hash
    requires Valid(L, rank)
    decreases Depth(L, rank, h)
  {
    if h !in L.blocks then NOT_A_BLOCK
    else
      match L.blocks[h]
      case Send(previous, _, _) =>
        LinkLowersDepth(L, rank, h, previous);
        Representative(L, rank, previous)
      case Receive(previous, _) =>
        LinkLowersDepth(L, rank, h, previous);
        Representative(L, rank, previous)
      case Open(_, _, _) => h
      case Change(_, _) => h
      case State(_, _, _, _, _) => h
  }

  // ---------------------------------------------------------------------------
  // The compute loops

  /** balance_visitor::compute */
  method ComputeBalance(L: Ledger, ghost rank: map<Hash, nat>, h: Hash) returns (result: U128)
    requires Valid(L, rank)
    requires h == ZERO || h in L.blocks
    ensures result == Balance(L, rank, h)
    decreases Depth(L, rank, h)
  {
    var current := h;
    result := 0;
    while current != ZERO
      invariant current == ZERO || current in L.blocks
      invariant Depth(L, rank, current) <= Depth(L, rank, h)
      invariant AddWrap(result, Balance(L, rank, current)) == Balance(L, rank, h)
      decreases Depth(L, rank, current)
    {
      assert PreviousStored(L.blocks, L.blocks[current]);
      match L.blocks[current]
      case Send(_, _, balance) =>
        result := AddWrap(result, balance);
        current := ZERO;
      case Receive(previous, source) =>
        if current in L.blockInfo {
          result := AddWrap(result, L.blockInfo[current].balance);
          current := ZERO;
        } else {
          LinkLowersDepth(L, rank, current, source);
          LinkLowersDepth(L, rank, current, previous);
          var amount := ComputeAmount(L, rank, source);
          AddWrapShift(result, amount, Balance(L, rank, previous));
          result := AddWrap(result, amount);
          current := previous;
        }
      case Open(source, _, _) =>
        LinkLowersDepth(L, rank, current, source);
        var amount := ComputeAmount(L, rank, source);
        result := AddWrap(result, amount);
        current := ZERO;
      case Change(previous, _) =>
        if current in L.blockInfo {
          result := AddWrap(result, L.blockInfo[current].balance);
          current := ZERO;
        } else {
          LinkLowersDepth(L, rank, current, previous);
          current := previous;
        }
      case State(_, _, _, balance, _) =>
        result := AddWrap(result, balance);
        current := ZERO;
    }
  }

  /** amount_visitor::compute */
  method ComputeAmount(L: Ledger, ghost rank: map<Hash, nat>, h: Hash) returns (result: U128)
    requires Valid(L, rank)
    ensures result == Amount(L, rank, h, h)
    decreases Depth(L, rank, h)
  {
    var current := h;
    result := 0;
    while current != ZERO
      invariant Depth(L, rank, current) <= Depth(L, rank, h)
      invariant current != ZERO ==> result == 0 && Amount(L, rank, h, current) == Amount(L, rank, h, h)
      invariant current == ZERO ==> result == Amount(L, rank, h, h)
      decreases current != ZERO, Depth(L, rank, current)
    {
      if current in L.blocks {
        assert PreviousStored(L.blocks, L.blocks[current]);
        match L.blocks[current]
        case Send(previous, _, balance) =>
          LinkLowersDepth(L, rank, current, previous);
          var prior := ComputeBalance(L, rank, previous);
          result := SubWrap(prior, balance);
          current := ZERO;
        case Receive(_, source) =>
          LinkLowersDepth(L, rank, current, source);
          current := source;  // from_send
        case Open(source, _, _) =>
          if source != L.genesisAccount {
            LinkLowersDepth(L, rank, current, source);
            current := source;  // from_send
          } else {
            result := GENESIS_AMOUNT;
            current := ZERO;
          }
        case Change(_, _) =>
          result := 0;
          current := ZERO;
        case State(_, previous, _, balance, _) =>
          LinkLowersDepth(L, rank, current, previous);
          var prior := ComputeBalance(L, rank, previous);
          result := if balance < prior then prior - balance else balance - prior;
          current := ZERO;
      } else {
        result := if h == L.genesisAccount then GENESIS_AMOUNT else 0;
        current := ZERO;
      }
    }
  }

  /** representative_visitor::compute */
  method ComputeRepresentative(L: Ledger, ghost rank: map<Hash, nat>, h: Hash) returns (result: Hash)
    requires Valid(L, rank)
    ensures result == Representative(L, rank, h)
  {
    SentinelsDiffer();
    var current := h;
    result := ZERO;
    while result == ZERO
      invariant result == ZERO ==> Representative(L, rank, current) == Representative(L, rank, h)
      invariant result != ZERO ==> result == Representative(L, rank, h)
      decreases result == ZERO, Depth(L, rank, current)
    {
      if current in L.blocks {
        match L.blocks[current]
        case Send(previous, _, _) =>
          LinkLowersDepth(L, rank, current, previous);
          current := previous;
        case Receive(previous, _) =>
          LinkLowersDepth(L, rank, current, previous);
          current := previous;
        case Open(_, _, _) =>
          result := current;
        case Change(_, _) =>
          result := current;
        case State(_, _, _, _, _) =>
          result := current;
      } else {
        result := NOT_A_BLOCK;
      }
    }
  }

  // ---------------------------------------------------------------------------
  // Properties of the walks

  /** A block that names a representative: open, change and state blocks. */
  predicate Declares(b: Block) {
    b.Open? || b.Change? || b.State?
  }

  /** The account chain from h back to its first block, following `previous`. */
  ghost function Chain(L: Ledger, rank: map<Hash, nat>, h: Hash): (c: seq<Hash>)
    requires Valid(L, rank) && h in L.blocks
    ensures |c| >= 1 && c[0] == h
    ensures forall i :: 0 <= i < |c| ==> c[i] in L.blocks
    decreases Depth(L, rank, h)
  {
    assert PreviousStored(L.blocks, L.blocks[h]);
    match L.blocks[h]
    case Open(_, _, _) => [h]
    case State(_, previous, _, _, _) =>
      if previous == ZERO then [h]
      else
        LinkLowersDepth(L, rank, h, previous);
        [h] + Chain(L, rank, previous)
    case Send(previous, _, _) =>
      LinkLowersDepth(L, rank, h, previous);
      [h] + Chain(L, rank, previous)
    case Receive(previous, _) =>
      LinkLowersDepth(L, rank, h, previous);
      [h] + Chain(L, rank, previous)
    case Change(previous, _) =>
      LinkLowersDepth(L, rank, h, previous);
      [h] + Chain(L, rank, previous)
  }

  /** c[i] is the first block of c that declares a representative. */
  ghost predicate FirstDeclaringAt(blocks: map<Hash, Block>, c: seq<Hash>, i: int) {
    && 0 <= i < |c|
    && (forall j :: 0 <= j <= i ==> c[j] in blocks)
    && Declares(blocks[c[i]])
    && (forall j :: 0 <= j < i ==> !Declares(blocks[c[j]]))
  }

  lemma PrependPassesThrough(blocks: map<Hash, Block>, h: Hash, c: seq<Hash>, i: int)
    requires h in blocks && !Declares(blocks[h]) && FirstDeclaringAt(blocks, c, i)
    ensures FirstDeclaringAt(blocks, [h] + c, i + 1) && ([h] + c)[i + 1] == c[i]
  {
    var c2 := [h] + c;
    forall j | 0 <= j <= i + 1 ensures c2[j] in blocks && (j < i + 1 ==> !Declares(blocks[c2[j]])) {
      if j > 0 { assert c2[j] == c[j - 1]; }
    }
  }

  /** representative_visitor yields a block hash, never an account: for a
      stored block, the nearest block on its own account chain that declares
      a representative (what account_info.rep_block records); not_a_block
      exactly when the hash names no stored block. */
  lemma {:induction false} RepresentativeIsNearestDeclaring(L: Ledger, rank: map<Hash, nat>, h: Hash)
    requires Valid(L, rank)
    ensures h !in L.blocks <==> Representative(L, rank, h) == NOT_A_BLOCK
    ensures h in L.blocks ==> Representative(L, rank, h) in L.blocks
    ensures h in L.blocks ==>
      exists i :: FirstDeclaringAt(L.blocks, Chain(L, rank, h), i)
               && Chain(L, rank, h)[i] == Representative(L, rank, h)
    decreases Depth(L, rank, h)
  {
    if h in L.blocks {
      var b := L.blocks[h];
      var r, c := Representative(L, rank, h), Chain(L, rank, h);
      if Declares(b) {
        assert r == h && c[0] == h;
        assert FirstDeclaringAt(L.blocks, c, 0) && c[0] == r;
      } else {
        var previous := b.previous;
        assert r == Representative(L, rank, previous);
        assert c == [h] + Chain(L, rank, previous);
        LinkLowersDepth(L, rank, h, previous);
        RepresentativeIsNearestDeclaring(L, rank, previous);
        var i :| FirstDeclaringAt(L.blocks, Chain(L, rank, previous), i) && Chain(L, rank, previous)[i] == r;
        PrependPassesThrough(L.blocks, h, Chain(L, rank, previous), i);
      }
    } else {
      SentinelsDiffer();
    }
  }

  /** The amount walk from `current` ends on a stored block rather than on a
      missing hash, so where it started does not matter. */
  ghost predicate Grounded(L: Ledger, rank: map<Hash, nat>, current: Hash)
    requires Valid(L, rank)
    decreases Depth(L, rank, current)
  {
    current == ZERO ||
    (current in L.blocks &&
      match L.blocks[current]
      case Receive(_, source) =>
        LinkLowersDepth(L, rank, current, source);
        Grounded(L, rank, source)
      case Open(source, _, _) =>
        LinkLowersDepth(L, rank, current, source);
        source == L.genesisAccount || Grounded(L, rank, source)
      case _ => true)
  }

  lemma {:induction false} AmountIgnoresOrigin(L: Ledger, rank: map<Hash, nat>, o1: Hash, o2: Hash, current: Hash)
    requires Valid(L, rank) && Grounded(L, rank, current)
    ensures Amount(L, rank, o1, current) == Amount(L, rank, o2, current)
    decreases Depth(L, rank, current)
  {
    if current != ZERO {
      match L.blocks[current]
      case Receive(_, source) =>
        LinkLowersDepth(L, rank, current, source);
        AmountIgnoresOrigin(L, rank, o1, o2, source);
      case Open(source, _, _) =>
        if source != L.genesisAccount {
          LinkLowersDepth(L, rank, current, source);
          AmountIgnoresOrigin(L, rank, o1, o2, source);
        }
      case _ =>
    }
  }

  /** from_send: the amount of a receive block, or of an open block that does
      not open the genesis account, is the amount of the block it collects;
      when that block is a send, it is what the send took off its sender's
      balance. */
  lemma AmountFromSend(L: Ledger, rank: map<Hash, nat>, h: Hash)
    requires Valid(L, rank) && h in L.blocks
    requires L.blocks[h].Receive? || (L.blocks[h].Open? && L.blocks[h].source != L.genesisAccount)
    requires Grounded(L, rank, L.blocks[h].source)
    ensures var s := L.blocks[h].source;
      && Amount(L, rank, h, h) == Amount(L, rank, s, s)
      && (s in L.blocks && L.blocks[s].Send? ==>
            Amount(L, rank, h, h) == SubWrap(Balance(L, rank, L.blocks[s].previous), L.blocks[s].balance))
  {
    var s := L.blocks[h].source;
    LinkLowersDepth(L, rank, h, s);
    AmountIgnoresOrigin(L, rank, h, s, s);
    if s in L.blocks && L.blocks[s].Send? {
      assert PreviousStored(L.blocks, L.blocks[s]);
    }
  }

  /** The balance after a block is the balance before it moved by the block's
      amount: down for a send, up for a receive or open, unchanged for a
      change, and in the direction of the new balance for a state block. */
  lemma BalanceMovesByAmount(L: Ledger, rank: map<Hash, nat>, h: Hash)
    requires Valid(L, rank) && h in L.blocks && h !in L.blockInfo
    ensures match L.blocks[h]
      case Send(previous, _, _) =>
        Balance(L, rank, h) == SubWrap(Balance(L, rank, previous), Amount(L, rank, h, h))
      case Receive(previous, source) =>
        Grounded(L, rank, source) ==>
          Balance(L, rank, h) == AddWrap(Balance(L, rank, previous), Amount(L, rank, h, h))
      case Open(source, _, _) =>
        source != L.genesisAccount && Grounded(L, rank, source) ==>
          Balance(L, rank, h) == Amount(L, rank, h, h)
      case Change(previous, _) =>
        Balance(L, rank, h) == Balance(L, rank, previous) && Amount(L, rank, h, h) == 0
      case State(_, previous, _, balance, _) =>
        var prior := Balance(L, rank, previous);
        Balance(L, rank, h) == if balance < prior then prior - Amount(L, rank, h, h)
                               else prior + Amount(L, rank, h, h)
  {
    assert PreviousStored(L.blocks, L.blocks[h]);
    match L.blocks[h]
    case Receive(_, source) =>
      if Grounded(L, rank, source) {
        AmountFromSend(L, rank, h);
      }
    case Open(source, _, _) =>
      if source != L.genesisAccount && Grounded(L, rank, source) {
        AmountFromSend(L, rank, h);
      }
    case _ =>
  }

  /** The store with the block_info cache emptied. */
  function NoCache(L: Ledger): Ledger {
    L.(blockInfo := map[])
  }

  /** Every cached balance of a stored block is the balance the walk would
      find without the cache. */
  ghost predicate CacheConsistent(L: Ledger, rank: map<Hash, nat>)
    requires Valid(L, rank)
  {
    forall k :: k in L.blockInfo && k in L.blocks ==>
      L.blockInfo[k].balance == Balance(NoCache(L), rank, k)
  }

  /** A consistent block_info cache only shortens the walk: balance_visitor
      finds the same balance with it as without it. */
  lemma {:induction false} CachedBalanceAgrees(L: Ledger, rank: map<Hash, nat>, h: Hash)
    requires Valid(L, rank) && CacheConsistent(L, rank)
    requires h == ZERO || h in L.blocks
    ensures Balance(L, rank, h) == Balance(NoCache(L), rank, h)
    decreases Depth(L, rank, h)
  {
    if h != ZERO {
      assert PreviousStored(L.blocks, L.blocks[h]);
      match L.blocks[h]
      case Receive(previous, source) =>
        if h in L.blockInfo {
          assert L.blockInfo[h].balance == Balance(NoCache(L), rank, h);
        } else {
          LinkLowersDepth(L, rank, h, previous);
          LinkLowersDepth(L, rank, h, source);
          CachedBalanceAgrees(L, rank, previous);
          CachedAmountAgrees(L, rank, source, source);
        }
      case Open(source, _, _) =>
        LinkLowersDepth(L, rank, h, source);
        CachedAmountAgrees(L, rank, source, source);
      case Change(previous, _) =>
        if h in L.blockInfo {
          assert L.blockInfo[h].balance == Balance(NoCache(L), rank, h);
        } else {
          LinkLowersDepth(L, rank, h, previous);
          CachedBalanceAgrees(L, rank, previous);
        }
      case _ =>
    }
  }

  lemma {:induction false} CachedAmountAgrees(L: Ledger, rank: map<Hash, nat>, origin: Hash, current: Hash)
    requires Valid(L, rank) && CacheConsistent(L, rank)
    ensures Amount(L, rank, origin, current) == Amount(NoCache(L), rank, origin, current)
    decreases Depth(L, rank, current)
  {
    if current != ZERO && current in L.blocks {
      assert PreviousStored(L.blocks, L.blocks[current]);
      match L.blocks[current]
      case Send(previous, _, _) =>
        LinkLowersDepth(L, rank, current, previous);
        CachedBalanceAgrees(L, rank, previous);
      case Receive(_, source) =>
        LinkLowersDepth(L, rank, current, source);
        CachedAmountAgrees(L, rank, origin, source);
      case Open(source, _, _) =>
        LinkLowersDepth(L, rank, current, source);
        CachedAmountAgrees(L, rank, origin, source);
      case State(_, previous, _, _, _) =>
        LinkLowersDepth(L, rank, current, previous);
        CachedBalanceAgrees(L, rank, previous);
      case Change(_, _) =>
    }
  }

  // ---------------------------------------------------------------------------
  // Genesis, one send, one open

  /** The genesis open block g, a send s from the genesis account of `amount`
      to account a, and the open block o of account a that collects it. */
  function ScenarioLedger(genesis: Account, g: Hash, s: Hash, o: Hash, a: Account,
                          rep: Account, amount: U128): Ledger
  {
    Ledger(map[g := Open(genesis, genesis, genesis),
               s := Send(g, a, GENESIS_AMOUNT - amount),
               o := Open(s, rep, a)],
           map[], genesis)
  }

  ghost function ScenarioRank(g: Hash, s: Hash, o: Hash): map<Hash, nat> {
    map[g := 0, s := 1, o := 2]
  }

  lemma ScenarioValid(genesis: Account, g: Hash, s: Hash, o: Hash, a: Account,
                      rep: Account, amount: U128)
    requires g != s && s != o && g != o
    requires ZERO !in {g, s, o} && NOT_A_BLOCK !in {g, s, o}
    requires genesis !in {g, s, o}
    ensures Valid(ScenarioLedger(genesis, g, s, o, a, rep, amount), ScenarioRank(g, s, o))
  {
    var blocks, rank := ScenarioLedger(genesis, g, s, o, a, rep, amount).blocks, ScenarioRank(g, s, o);
    assert blocks.Keys == rank.Keys == {g, s, o};
    assert LinksBelow(blocks, rank, g) by {
      assert Links(blocks[g]) == {genesis};
    }
    assert LinksBelow(blocks, rank, s) by {
      assert Links(blocks[s]) == {g};
    }
    assert LinksBelow(blocks, rank, o) by {
      assert Links(blocks[o]) == {s};
    }
    assert Closed(blocks) by {
      assert PreviousStored(blocks, blocks[s]);
    }
  }

  /** After the genesis account sends `amount` to a and a opens with it, a's
      balance is `amount`, the genesis account keeps the rest of the supply,
      and a's representative is declared by its own open block. */
  lemma GenesisSendOpen(genesis: Account, g: Hash, s: Hash, o: Hash, a: Account,
                        rep: Account, amount: U128)
    requires g != s && s != o && g != o
    requires ZERO !in {g, s, o} && NOT_A_BLOCK !in {g, s, o}
    requires genesis != ZERO && genesis !in {g, s, o}
    ensures var L, rank := ScenarioLedger(genesis, g, s, o, a, rep, amount), ScenarioRank(g, s, o);
      && Valid(L, rank)
      && Balance(L, rank, g) == GENESIS_AMOUNT
      && Balance(L, rank, s) == GENESIS_AMOUNT - amount
      && Amount(L, rank, o, o) == amount
      && Balance(L, rank, o) == amount
      && Representative(L, rank, o) == o
      && Representative(L, rank, s) == g
  {
    var L, rank := ScenarioLedger(genesis, g, s, o, a, rep, amount), ScenarioRank(g, s, o);
    ScenarioValid(genesis, g, s, o, a, rep, amount);
    assert L.blocks[g] == Open(genesis, genesis, genesis);
    assert L.blocks[s] == Send(g, a, GENESIS_AMOUNT - amount);
    assert L.blocks[o] == Open(s, rep, a);
    assert genesis !in L.blocks;
    assert Amount(L, rank, genesis, genesis) == GENESIS_AMOUNT;
    assert Balance(L, rank, g) == GENESIS_AMOUNT;
    assert Amount(L, rank, o, s) == amount;
    assert Amount(L, rank, s, s) == amount;
  }
}
