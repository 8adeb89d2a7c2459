/** The result types of rai/common.hpp: what processing a block, checking a
    vote and recording a vote report to their callers. The block processor
    that produces a process_return is not part of this model; the vote codes
    and tally results are produced in module Voting. */
module Outcomes {
  import opened Codec
  import opened Records

  datatype Option<T> = None | Some(value: T)

  /** process_result: the one terminal outcome of processing a block. */
  datatype ProcessResult =
    | Progress            // not seen before, signed correctly
    | BadSignature        // signature forged or damaged in transit
    | Old                 // already seen and valid
    | NegativeSpend       // an attempt to spend a negative amount
    | Fork                // another block already follows the same previous
    | Unreceivable        // source missing or already received
    | GapPrevious         // previous block unknown
    | GapSource           // source block unknown
    | StateBlockDisabled  // state blocks not yet enabled
    | NotReceiveFromSend  // a receive whose source is not a send
    | AccountMismatch     // open block's account is not the send's destination
    | OpenedBurnAccount   // an open of the burn account
    | BalanceMismatch     // balance and amount delta disagree
    | BlockPosition       // this block cannot follow its previous block

  /** process_return: the outcome plus what the processor learnt about the
      block. `stateIsSend` is unset unless the block is a state block whose
      direction was determined. */
  datatype ProcessReturn = ProcessReturn(
    code: ProcessResult,
    account: Account,
    amount: U128,
    pendingAccount: Account,
    stateIsSend: Option<bool>)

  /** vote_code: how a vote fares against the signature check and the
      highest sequence number seen from its account. */
  datatype VoteCode =
    | Invalid  // not signed correctly
    | Replay   // a higher sequence number from this account was seen before
    | Vote     // the highest sequence number from this account

  /** tally_result: what recording one representative's vote did to an
      election. */
  datatype TallyResult =
    | Vote     // the representative had not voted in this election
    | Changed  // the representative switched to another block
    | Confirm  // the representative repeated its vote
}
