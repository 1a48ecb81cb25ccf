/**
 The proposal service: the six exposed operations of the canister, each a
 pure function of the current store and the calling principal. Every
 mutating operation looks the key up, runs its checks in the source's
 order, builds the new record and writes it back with one insert; it
 returns its answer together with the store after the call.
 */
module Registry {
  import opened Types
  import opened Store

  /** Linear scan of the voter list, as `Vec::contains` does it. */
  function Contains(s: seq<Principal>, x: Principal): (b: bool)
    ensures b <==> x in s
  {
    if |s| == 0 then false
    else if s[0] == x then true
    else
      Contains(s[1..], x)
  }

  /** Public read of one proposal; never changes the store. */
  function GetProposal(store: Store, key: Key): (r: Option<Proposal>)
    ensures r.Some? <==> key in store
    ensures r.Some? ==> r.value == store[key]
  {
    Get(store, key)
  }

  /** Number of proposals held. */
  function GetProposalCount(store: Store): (n: nat)
    ensures n == |store.Keys|
    ensures n == 0 <==> store == map[]
  {
    Len(store)
  }

  /** Upsert of a fresh record owned by the caller. Any record already at
      `key` is overwritten, whoever owned it, and handed back. */
  function CreateProposal(store: Store, caller: Principal, key: Key, proposal: ProposalInput)
    : (r: (Option<Proposal>, Store))
    ensures r.0.Some? <==> key in store
    ensures r.0.Some? ==> r.0.value == store[key]
    ensures r.1.Keys == store.Keys + {key}
    ensures r.1[key].owner == caller
    ensures r.1[key].description == proposal.description
    ensures r.1[key].is_active == proposal.is_active
    ensures r.1[key].approve == 0 && r.1[key].reject == 0 && r.1[key].pass == 0
    ensures r.1[key].voted == []
    ensures forall k :: k in store && k != key ==> r.1[k] == store[k]
    ensures |r.1| == if key in store then |store| else |store| + 1
  {
    var value := Proposal(
      description := proposal.description,
      approve := 0,
      reject := 0,
      pass := 0,
      is_active := proposal.is_active,
      voted := [],
      owner := caller);
    Insert(store, key, value)
  }

  /** Owner-only replacement of `description` and `is_active`. */
  function EditProposal(store: Store, caller: Principal, key: Key, proposal: ProposalInput)
    : (r: (Outcome, Store))
    ensures key !in store ==> r == (Err(NoSuchProposal), store)
    ensures key in store && store[key].owner != caller ==> r == (Err(AccessRejected), store)
    ensures r.0 == Ok <==> key in store && store[key].owner == caller
    ensures r.0 != Err(UpdateError)
    ensures r.0.Err? ==> r.1 == store
    ensures r.0 == Ok ==>
      && r.1.Keys == store.Keys
      && (forall k :: k in store && k != key ==> r.1[k] == store[k])
      && r.1[key].description == proposal.description
      && r.1[key].is_active == proposal.is_active
      && r.1[key].owner == store[key].owner
      && r.1[key].voted == store[key].voted
      && r.1[key].approve == store[key].approve
      && r.1[key].reject == store[key].reject
      && r.1[key].pass == store[key].pass
  {
    match Get(store, key)
    case None => (Err(NoSuchProposal), store)
    case Some(old_proposal) =>
      if old_proposal.owner != caller then (Err(AccessRejected), store)
      else
        var value := Proposal(
          description := proposal.description,
          approve := old_proposal.approve,
          reject := old_proposal.reject,
          pass := old_proposal.pass,
          is_active := proposal.is_active,
          voted := old_proposal.voted,
          owner := old_proposal.owner);
        var (previous, store') := Insert(store, key, value);
        match previous
        case Some(_) => (Ok, store')
        case None => (Err(UpdateError), store')
  }

  /** Owner-only close: clears `is_active` and touches nothing else. */
  function EndProposal(store: Store, caller: Principal, key: Key): (r: (Outcome, Store))
    ensures key !in store ==> r == (Err(NoSuchProposal), store)
    ensures key in store && store[key].owner != caller ==> r == (Err(AccessRejected), store)
    ensures r.0 == Ok <==> key in store && store[key].owner == caller
    ensures r.0 != Err(UpdateError)
    ensures r.0.Err? ==> r.1 == store
    ensures r.0 == Ok ==>
      && r.1.Keys == store.Keys
      && (forall k :: k in store && k != key ==> r.1[k] == store[k])
      && !r.1[key].is_active
      && r.1[key].description == store[key].description
      && r.1[key].owner == store[key].owner
      && r.1[key].voted == store[key].voted
      && r.1[key].approve == store[key].approve
      && r.1[key].reject == store[key].reject
      && r.1[key].pass == store[key].pass
  {
    match Get(store, key)
    case None => (Err(NoSuchProposal), store)
    case Some(old_proposal) =>
      if old_proposal.owner != caller then (Err(AccessRejected), store)
      else
        var closed := old_proposal.(is_active := false);
        var (previous, store') := Insert(store, key, closed);
        match previous
        case Some(_) => (Ok, store')
        case None => (Err(UpdateError), store')
  }

  /** The counter update a choice makes: Approve and Reject add one to
      their counter, Pass subtracts one from its counter. */
  function Tally(p: Proposal, choice: Choice): (q: Proposal)
    ensures q.description == p.description && q.is_active == p.is_active
    ensures q.voted == p.voted && q.owner == p.owner
    ensures q.approve - p.approve == (if choice == Approve then 1 else 0)
    ensures q.reject - p.reject == (if choice == Reject then 1 else 0)
    ensures p.pass - q.pass == (if choice == Pass then 1 else 0)
  {
    match choice
    case Approve => p.(approve := p.approve + 1)
    case Pass => p.(pass := p.pass - 1)
    case Reject => p.(reject := p.reject + 1)
  }

  /** One vote by `caller`. Already having voted is checked before the
      proposal's activity, so a repeat voter on a closed proposal is told
      `AlreadyVoted`. */
  function Vote(store: Store, caller: Principal, key: Key, choice: Choice): (r: (Outcome, Store))
    ensures key !in store ==> r == (Err(NoSuchProposal), store)
    ensures key in store && caller in store[key].voted ==> r == (Err(AlreadyVoted), store)
    ensures key in store && caller !in store[key].voted && !store[key].is_active ==>
      r == (Err(ProposalIsNotActive), store)
    ensures r.0 == Ok <==> key in store && caller !in store[key].voted && store[key].is_active
    ensures r.0 != Err(UpdateError) && r.0 != Err(AccessRejected)
    ensures r.0.Err? ==> r.1 == store
    ensures r.0 == Ok ==>
      && r.1.Keys == store.Keys
      && (forall k :: k in store && k != key ==> r.1[k] == store[k])
      && r.1[key].voted == store[key].voted + [caller]
      && r.1[key].owner == store[key].owner
      && r.1[key].description == store[key].description
      && r.1[key].is_active
      && r.1[key].approve == store[key].approve + (if choice == Approve then 1 else 0)
      && r.1[key].reject == store[key].reject + (if choice == Reject then 1 else 0)
      && r.1[key].pass == store[key].pass - (if choice == Pass then 1 else 0)
  {
    match Get(store, key)
    case None => (Err(NoSuchProposal), store)
    case Some(proposal) =>
      if Contains(proposal.voted, caller) then (Err(AlreadyVoted), store)
      else if !proposal.is_active then (Err(ProposalIsNotActive), store)
      else
        var counted := Tally(proposal, choice);
        var updated := counted.(voted := counted.voted + [caller]);
        var (previous, store') := Insert(store, key, updated);
        match previous
        case Some(_) => (Ok, store')
        case None => (Err(UpdateError), store')
  }
}
