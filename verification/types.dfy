/**
 The records of the proposal registry: the stored `Proposal`, the arguments
 of create and edit, the vote `Choice`, the `VoteError` taxonomy and the
 `Result<(), VoteError>` the mutating operations return.
 */
module Types {

  /** The conventional Some/None datatype, used for map lookups and for the
      previous value an insert hands back. */
  datatype Option<+T> = None | Some(value: T)

  /** Keys of the proposal map are unsigned 64-bit integers. */
  newtype Key = x: int | 0 <= x < 0x1_0000_0000_0000_0000

  /** A caller identity as the host hands it over: an opaque byte string.
      The registry never looks inside it; it only compares two principals
      for equality. */
  datatype Principal = Principal(bytes: seq<bv8>)

  datatype Choice = Approve | Reject | Pass

  datatype VoteError =
    | AlreadyVoted
    | ProposalIsNotActive
    | NoSuchProposal
    | AccessRejected
    | UpdateError

  /** `Result<(), VoteError>` of edit, end and vote. */
  datatype Outcome = Ok | Err(error: VoteError)

  /** One stored proposal. The three counters are signed in the source;
      here they are unbounded integers. `voted` keeps the order in which
      the voters were appended. */
  datatype Proposal = Proposal(
    description: string,
    approve: int,
    reject: int,
    pass: int,
    is_active: bool,
    voted: seq<Principal>,
    owner: Principal
  )

  /** The argument record of create and edit (`CreateProposal` in the source). */
  datatype ProposalInput = ProposalInput(description: string, is_active: bool)

  /** No principal occurs twice in `s`. */
  ghost predicate NoDuplicates(s: seq<Principal>)
  {
    forall i, j :: 0 <= i < j < |s| ==> s[i] != s[j]
  }
}
