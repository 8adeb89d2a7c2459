/** Vote bookkeeping of rai/common.hpp: the vote record, the classification
    of an incoming vote against the highest sequence number seen from its
    account (vote_code), and one election's `votes` object, which keeps the
    block each representative currently supports (rep_votes) and reports what
    a new vote did (tally_result).

    The header declares these operations without bodies; the model states
    them as the ledger's vote_validate and vote_max and the votes methods
    behave: a vote whose signature does not verify is invalid; otherwise the
    highest-sequence vote seen from the account is kept, and the new vote is
    a replay exactly when a vote with a strictly higher sequence number came
    before it. */
module Voting {
  import opened Codec
  import opened Records
  import opened Blocks
  import Outcomes

  /** vote: a representative's signed statement that it supports `block` in
      round `sequence`. Signature checking is a parameter of the operations
      below (ed25519 is not part of this model). */
  datatype Vote = Vote(sequence: U64, block: Block, account: Account, signature: seq<byte>)

  /** vote_result: the code, and for a signed vote the highest-sequence vote
      now on record for its account. */
  datatype VoteResult = VoteResult(code: Outcomes.VoteCode, vote: Outcomes.Option<Vote>)

  // ---------------------------------------------------------------------------
  // Classification against the highest sequence number

  /** vote_max: the vote on record for v's account if its sequence number is
      strictly higher than v's, otherwise v itself. */
  function MaxOf(latest: map<Account, Vote>, v: Vote): (r: Vote)
    ensures r.sequence >= v.sequence
    ensures v.account in latest ==> r.sequence >= latest[v.account].sequence
    ensures r == v || (v.account in latest && r == latest[v.account])
  {
    if v.account in latest && latest[v.account].sequence > v.sequence then latest[v.account] else v
  }

  /** vote_validate: invalid when the signature does not verify; otherwise
      vote when v is now the highest on record for its account and replay
      when an earlier vote outranks it. */
  function Classify(latest: map<Account, Vote>, v: Vote, signatureValid: bool): (r: VoteResult)
    ensures r.code == Outcomes.VoteCode.Invalid <==> !signatureValid
    ensures r.code == Outcomes.VoteCode.Vote ==> r.vote == Outcomes.Some(v)
    ensures r.code == Outcomes.VoteCode.Replay ==>
              r.vote.Some? && r.vote.value.sequence > v.sequence
  {
    if !signatureValid then VoteResult(Outcomes.VoteCode.Invalid, Outcomes.None)
    else
      var max := MaxOf(latest, v);
      VoteResult(if max == v then Outcomes.VoteCode.Vote else Outcomes.VoteCode.Replay, Outcomes.Some(max))
  }

  /** The votes on record after v has been classified: vote_max records the
      winner for v's account; an unsigned vote changes nothing. */
  function Observe(latest: map<Account, Vote>, v: Vote, signatureValid: bool): map<Account, Vote> {
    if signatureValid then latest[v.account := MaxOf(latest, v)] else latest
  }

  /** The record of votes keeps, for each account, the vote with the highest
      sequence number: it never moves down. */
  lemma ObserveNeverLowers(latest: map<Account, Vote>, v: Vote, signatureValid: bool)
    ensures latest.Keys <= Observe(latest, v, signatureValid).Keys
    ensures forall a :: a in latest ==>
              Observe(latest, v, signatureValid)[a].sequence >= latest[a].sequence
  {
  }

  /** A vote as it arrived, with the outcome of its signature check. */
  datatype Arrival = Arrival(vote: Vote, signatureValid: bool)

  /** A correctly signed vote from account a. */
  predicate SignedBy(x: Arrival, a: Account) {
    x.signatureValid && x.vote.account == a
  }

  /** The votes on record after classifying `history` in order. */
  function Record(history: seq<Arrival>): map<Account, Vote> {
    if history == [] then map[]
    else
      var last := history[|history| - 1];
      Observe(Record(history[..|history| - 1]), last.vote, last.signatureValid)
  }

  /** The record holds a vote for exactly the accounts that sent a signed
      vote, and that vote is the signed vote with the highest sequence number
      the account sent. */
  lemma {:induction false} RecordIsHighest(history: seq<Arrival>, a: Account)
    ensures a in Record(history) <==> exists i :: 0 <= i < |history| && SignedBy(history[i], a)
    ensures a in Record(history) ==>
              && (forall i :: 0 <= i < |history| && SignedBy(history[i], a) ==>
                    history[i].vote.sequence <= Record(history)[a].sequence)
              && (exists i :: 0 <= i < |history| && SignedBy(history[i], a) && history[i].vote == Record(history)[a])
  {
    if history != [] {
      var n := |history| - 1;
      var prefix, last := history[..n], history[n];
      RecordIsHighest(prefix, a);
      assert forall i :: 0 <= i < n ==> history[i] == prefix[i];
      var before, after := Record(prefix), Record(history);
      if SignedBy(last, a) {
        assert after[a] == MaxOf(before, last.vote);
        if after[a] == last.vote {
          assert SignedBy(history[n], a) && history[n].vote == after[a];
        } else {
          var i :| 0 <= i < n && SignedBy(prefix[i], a) && prefix[i].vote == before[a];
          assert SignedBy(history[i], a) && history[i].vote == after[a];
        }
      } else if a in before {
        assert after[a] == before[a];
        var i :| 0 <= i < n && SignedBy(prefix[i], a) && prefix[i].vote == before[a];
        assert SignedBy(history[i], a) && history[i].vote == after[a];
      }
    }
  }

  /** A correctly signed vote is classified `vote` exactly when no earlier
      signed vote from its account has a higher sequence number, and `replay`
      exactly when one has; a vote whose signature fails is `invalid` whatever
      came before. */
  lemma {:induction false} ClassifyAgainstHistory(history: seq<Arrival>, v: Vote)
    ensures Classify(Record(history), v, true).code == Outcomes.VoteCode.Vote <==>
              forall i :: 0 <= i < |history| && SignedBy(history[i], v.account) ==>
                history[i].vote.sequence <= v.sequence
    ensures Classify(Record(history), v, true).code == Outcomes.VoteCode.Replay <==>
              exists i :: 0 <= i < |history| && SignedBy(history[i], v.account)
                       && history[i].vote.sequence > v.sequence
    ensures Classify(Record(history), v, false).code == Outcomes.VoteCode.Invalid
  {
    RecordIsHighest(history, v.account);
  }

  /** The ledger's record of the highest vote seen per account (the vote
      cache in front of the vote table). */
  class VoteRecord {
    var latest: map<Account, Vote>

    constructor()
      ensures latest == map[]
    {
      latest := map[];
    }

    /** block_store::vote_max */
    method VoteMax(v: Vote) returns (r: Vote)
      modifies this
      ensures r == MaxOf(old(latest), v)
      ensures latest == old(latest)[v.account := r]
    {
      r := v;
      if v.account in latest && latest[v.account].sequence > r.sequence {
        r := latest[v.account];
      }
      latest := latest[v.account := r];
    }

    /** ledger::vote_validate */
    method Validate(v: Vote, signatureValid: bool) returns (result: VoteResult)
      modifies this
      ensures result == Classify(old(latest), v, signatureValid)
      ensures latest == Observe(old(latest), v, signatureValid)
    {
      result := VoteResult(Outcomes.VoteCode.Invalid, Outcomes.None);
      if signatureValid {
        var max := VoteMax(v);
        result := VoteResult(if max == v then Outcomes.VoteCode.Vote else Outcomes.VoteCode.Replay,
                             Outcomes.Some(max));
      }
    }
  }

  // ---------------------------------------------------------------------------
  // One election

  /** All entries of rep_votes name the same block. */
  ghost predicate AllSame(m: map<Account, Block>) {
    forall a, b :: a in m && b in m ==> m[a] == m[b]
  }

  /** votes: the election over the fork at `id`. */
  class Votes {
    const id: Hash
    var repVotes: map<Account, Block>

    /** An election opened for `block`: its root identifies the fork, and the
        block starts with the support of not_an_account. */
    constructor(block: Block)
      ensures id == Root(block)
      ensures repVotes == map[NOT_AN_ACCOUNT := block]
    {
      id := Root(block);
      repVotes := map[NOT_AN_ACCOUNT := block];
    }

    /** votes::vote: the voting account's entry becomes the vote's block and
        no other entry changes; `vote` for an account new to the election,
        `confirm` when the account repeats the block it supported,
        `changed` when it switches. */
    method Vote(v: Vote) returns (result: Outcomes.TallyResult)
      modifies this
      ensures repVotes == old(repVotes)[v.account := v.block]
      ensures result == Outcomes.TallyResult.Vote <==> v.account !in old(repVotes)
      ensures result == Outcomes.TallyResult.Confirm <==>
                v.account in old(repVotes) && old(repVotes)[v.account] == v.block
      ensures result == Outcomes.TallyResult.Changed <==>
                v.account in old(repVotes) && old(repVotes)[v.account] != v.block
    {
      if v.account !in repVotes {
        result := Outcomes.TallyResult.Vote;
        repVotes := repVotes[v.account := v.block];
      } else if repVotes[v.account] != v.block {
        result := Outcomes.TallyResult.Changed;
        repVotes := repVotes[v.account := v.block];
      } else {
        result := Outcomes.TallyResult.Confirm;
      }
    }

    /** votes::uncontested: every entry names the block of the first entry. */
    method Uncontested() returns (result: bool)
      ensures result <==> AllSame(repVotes)
    {
      result := true;
      if repVotes != map[] {
        var first :| first in repVotes;
        var block := repVotes[first];
        var remaining := repVotes.Keys;
        while result && remaining != {}
          invariant remaining <= repVotes.Keys
          invariant result <==> forall a :: a in repVotes && a !in remaining ==> repVotes[a] == block
          decreases remaining
        {
          var a :| a in remaining;
          result := repVotes[a] == block;
          remaining := remaining - {a};
        }
      }
    }
  }

  /** An election is uncontested exactly when at most one block has support. */
  lemma UncontestedIffOneCandidate(m: map<Account, Block>)
    ensures AllSame(m) <==> |m.Values| <= 1
  {
    if AllSame(m) && m != map[] {
      var k :| k in m;
      assert m.Values == {m[k]};
    }
    if !AllSame(m) {
      var a, b :| a in m && b in m && m[a] != m[b];
      var rest := m.Values - {m[a]};
      assert m[b] in rest;
      assert m.Values == rest + {m[a]};
    }
  }

  /** rep_votes after the election for `block` has recorded `votes` in order. */
  function Tallied(block: Block, votes: seq<Vote>): map<Account, Block> {
    if votes == [] then map[NOT_AN_ACCOUNT := block]
    else Tallied(block, votes[..|votes| - 1])[votes[|votes| - 1].account := votes[|votes| - 1].block]
  }

  /** An election for `block` that records `votes` in order ends with the
      rep_votes that Tallied describes, so the lemmas below about Tallied hold
      of the class's state. */
  method RunElection(block: Block, votes: seq<Vote>) returns (e: Votes)
    ensures fresh(e)
    ensures e.id == Root(block)
    ensures e.repVotes == Tallied(block, votes)
  {
    e := new Votes(block);
    var i := 0;
    while i < |votes|
      invariant 0 <= i <= |votes|
      invariant e.id == Root(block)
      invariant e.repVotes == Tallied(block, votes[..i])
    {
      assert votes[..i + 1][..i] == votes[..i];
      var _ := e.Vote(votes[i]);
      i := i + 1;
    }
    assert votes[..i] == votes;
  }

  /** rep_votes has an entry for the opening entry's account and for every
      account that voted, and for no other. */
  lemma {:induction false} TalliedKeys(block: Block, votes: seq<Vote>, a: Account)
    ensures a in Tallied(block, votes) <==>
              a == NOT_AN_ACCOUNT || exists i :: 0 <= i < |votes| && votes[i].account == a
  {
    if votes != [] {
      var n := |votes| - 1;
      var prefix := votes[..n];
      TalliedKeys(block, prefix, a);
      if a != votes[n].account && a != NOT_AN_ACCOUNT && a in Tallied(block, prefix) {
        var i :| 0 <= i < n && prefix[i].account == a;
        assert votes[i].account == a;
      }
      if a != votes[n].account && exists i :: 0 <= i < |votes| && votes[i].account == a {
        var i :| 0 <= i < |votes| && votes[i].account == a;
        assert prefix[i].account == a;
      }
    }
  }

  /** The entry of an account holds the block of its latest vote: a later
      vote from another account leaves it alone. */
  lemma {:induction false} TalliedIsLatest(block: Block, votes: seq<Vote>, i: int)
    requires 0 <= i < |votes|
    requires forall j :: i < j < |votes| ==> votes[j].account != votes[i].account
    ensures votes[i].account in Tallied(block, votes)
    ensures Tallied(block, votes)[votes[i].account] == votes[i].block
  {
    var n := |votes| - 1;
    if i < n {
      var prefix := votes[..n];
      assert prefix[i] == votes[i];
      TalliedIsLatest(block, prefix, i);
    }
  }

  /** The opening entry keeps the election's block until not_an_account
      itself votes. */
  lemma {:induction false} TalliedKeepsOpening(block: Block, votes: seq<Vote>)
    requires forall i :: 0 <= i < |votes| ==> votes[i].account != NOT_AN_ACCOUNT
    ensures NOT_AN_ACCOUNT in Tallied(block, votes)
    ensures Tallied(block, votes)[NOT_AN_ACCOUNT] == block
  {
    if votes != [] {
      var prefix := votes[..|votes| - 1];
      assert forall i :: 0 <= i < |prefix| ==> prefix[i] == votes[i];
      TalliedKeepsOpening(block, prefix);
    }
  }

  /** While every vote names the election's own block, the election stays
      uncontested. */
  lemma {:induction false} AgreeingVotesUncontested(block: Block, votes: seq<Vote>)
    requires forall i :: 0 <= i < |votes| ==> votes[i].block == block
    ensures forall a :: a in Tallied(block, votes) ==> Tallied(block, votes)[a] == block
    ensures AllSame(Tallied(block, votes))
  {
    if votes != [] {
      AgreeingVotesUncontested(block, votes[..|votes| - 1]);
    }
  }

  /** Once a block different from one that another account still supports
      gets a vote, the election is contested. */
  lemma SecondCandidateContests(m: map<Account, Block>, v: Vote, other: Account)
    requires other in m && other != v.account && m[other] != v.block
    ensures !AllSame(m[v.account := v.block])
    ensures |m[v.account := v.block].Values| >= 2
  {
    var m' := m[v.account := v.block];
    assert m'[other] != m'[v.account];
    UncontestedIffOneCandidate(m');
  }
}
