/**
 Properties that relate two or more calls of the registry's operations, or
 pin down a behaviour of one call worth naming on its own.
 */
module RegistryProperties {
  import opened Types
  import opened Store
  import opened Registry

  /** The count grows by one exactly when create hits an absent key, and no
      other operation moves it. */
  lemma CountChangesOnlyOnCreate(store: Store, caller: Principal, key: Key,
                                 input: ProposalInput, choice: Choice)
    ensures GetProposalCount(CreateProposal(store, caller, key, input).1)
            == GetProposalCount(store) + (if key in store then 0 else 1)
    ensures GetProposalCount(EditProposal(store, caller, key, input).1) == GetProposalCount(store)
    ensures GetProposalCount(EndProposal(store, caller, key).1) == GetProposalCount(store)
    ensures GetProposalCount(Vote(store, caller, key, choice).1) == GetProposalCount(store)
  {
  }

  /** Create does not check who owned an occupied key: the new caller takes
      the key over, and its earlier votes are discarded. */
  lemma CreateTakesOverOccupiedKey(store: Store, caller: Principal, key: Key, input: ProposalInput)
    requires key in store
    ensures var (previous, store') := CreateProposal(store, caller, key, input);
      && previous == Some(store[key])
      && store'[key].owner == caller
      && store'[key].voted == []
      && GetProposalCount(store') == GetProposalCount(store)
  {
  }

  /** An owner's edit writes the old record with only `description` and
      `is_active` replaced. */
  lemma EditRewritesOnlyTwoFields(store: Store, caller: Principal, key: Key, input: ProposalInput)
    requires key in store && store[key].owner == caller
    ensures EditProposal(store, caller, key, input)
            == (Ok, store[key := store[key].(description := input.description,
                                              is_active := input.is_active)])
  {
  }

  /** Closing twice succeeds both times and the second close changes
      nothing. */
  lemma EndIsIdempotent(store: Store, caller: Principal, key: Key)
    requires key in store && store[key].owner == caller
    ensures var (first, once) := EndProposal(store, caller, key);
      && first == Ok
      && var (second, twice) := EndProposal(once, caller, key);
      && second == Ok
      && twice == once
  {
  }

  /** Edit takes `is_active` from its argument, so the owner can reopen a
      closed proposal: activity is not one-way. */
  lemma EditCanReopen(store: Store, caller: Principal, key: Key, description: string)
    requires key in store && store[key].owner == caller && !store[key].is_active
    ensures var (result, store') := EditProposal(store, caller, key, ProposalInput(description, true));
      result == Ok && store'[key].is_active
  {
  }

  /** A repeat voter is told `AlreadyVoted` even when the proposal has been
      closed: membership is checked before activity. */
  lemma RepeatVoterOnClosedProposal(store: Store, caller: Principal, key: Key, choice: Choice)
    requires key in store && caller in store[key].voted && !store[key].is_active
    ensures Vote(store, caller, key, choice) == (Err(AlreadyVoted), store)
  {
  }

  /** A Pass vote lowers the pass counter by one and leaves approve and
      reject alone. */
  lemma PassVoteDecrements(store: Store, caller: Principal, key: Key)
    requires key in store && caller !in store[key].voted && store[key].is_active
    ensures var (result, store') := Vote(store, caller, key, Pass);
      && result == Ok
      && store'[key].pass == store[key].pass - 1
      && store'[key].approve == store[key].approve
      && store'[key].reject == store[key].reject
  {
  }

  /** A successful vote keeps the voter list of its proposal free of
      duplicates. */
  lemma VoteKeepsVotersDistinct(store: Store, caller: Principal, key: Key, choice: Choice)
    requires key in store && NoDuplicates(store[key].voted)
    ensures NoDuplicates(Vote(store, caller, key, choice).1[key].voted)
  {
  }

  /** The same principal voting twice: the first vote counts, the second is
      refused and leaves the store as the first left it. */
  lemma SecondVoteRefused(store: Store, caller: Principal, key: Key, first: Choice, second: Choice)
    requires key in store && caller !in store[key].voted && store[key].is_active
    ensures var (r1, s1) := Vote(store, caller, key, first);
      && r1 == Ok
      && |s1[key].voted| == |store[key].voted| + 1
      && Vote(s1, caller, key, second) == (Err(AlreadyVoted), s1)
  {
  }

  /** The walk-through of a proposal's life: A creates key 1, B approves,
      B's second vote is refused, A closes it, C's vote is refused. */
  lemma Scenario(store: Store)
    ensures var a, b, c := Principal([1]), Principal([2]), Principal([3]);
      var s0 := CreateProposal(store, a, 1, ProposalInput("D", true)).1;
      var s1 := s0[1 := Proposal("D", 1, 0, 0, true, [b], a)];
      var s3 := s1[1 := Proposal("D", 1, 0, 0, false, [b], a)];
      && GetProposal(s0, 1) == Some(Proposal("D", 0, 0, 0, true, [], a))
      && Vote(s0, b, 1, Approve) == (Ok, s1)
      && Vote(s1, b, 1, Approve) == (Err(AlreadyVoted), s1)
      && EndProposal(s1, a, 1) == (Ok, s3)
      && Vote(s3, c, 1, Reject) == (Err(ProposalIsNotActive), s3)
  {
    var a, b := Principal([1]), Principal([2]);
    var s0 := CreateProposal(store, a, 1, ProposalInput("D", true)).1;
    var s1 := s0[1 := Proposal("D", 1, 0, 0, true, [b], a)];
    var s3 := s1[1 := Proposal("D", 1, 0, 0, false, [b], a)];
    var voted := Vote(s0, b, 1, Approve).1;
    assert [] + [b] == [b];
    assert voted[1] == s1[1];
    assert voted == s1;
    var ended := EndProposal(s1, a, 1).1;
    assert ended[1] == s3[1];
    assert ended == s3;
  }
}
