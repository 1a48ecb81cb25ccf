/**
 Sequences of calls against the registry, one after another as the host
 dispatches them, and the invariants every stored record keeps along any
 such sequence.
 */
module Trace {
  import opened Types
  import opened Store
  import opened Registry

  /** One update call, with the principal the host attached to it. */
  datatype Call =
    | Create(caller: Principal, key: Key, input: ProposalInput)
    | Edit(caller: Principal, key: Key, input: ProposalInput)
    | End(caller: Principal, key: Key)
    | Cast(caller: Principal, key: Key, choice: Choice)

  /** What an update call answers: create hands back the previous record,
      the others their outcome. */
  datatype Response = Created(previous: Option<Proposal>) | Done(outcome: Outcome)

  /** One update call. Only the named key can change, only create can add
      a key or change an owner, every other call on an absent key is
      answered `NoSuchProposal` without effect, and `UpdateError` is never
      answered. */
  function Step(store: Store, call: Call): (r: (Response, Store))
    ensures r.0 != Done(Err(UpdateError))
    ensures call.Create? ==> r.1.Keys == store.Keys + {call.key}
    ensures !call.Create? ==> r.1.Keys == store.Keys
    ensures forall k :: k in store && k != call.key ==> r.1[k] == store[k]
    ensures !call.Create? && call.key in store ==> r.1[call.key].owner == store[call.key].owner
    ensures !call.Create? && call.key !in store ==> r == (Done(Err(NoSuchProposal)), store)
  {
    match call
    case Create(caller, key, input) =>
      var created := CreateProposal(store, caller, key, input);
      (Created(created.0), created.1)
    case Edit(caller, key, input) =>
      var edited := EditProposal(store, caller, key, input);
      (Done(edited.0), edited.1)
    case End(caller, key) =>
      var ended := EndProposal(store, caller, key);
      (Done(ended.0), ended.1)
    case Cast(caller, key, choice) =>
      var voted := Vote(store, caller, key, choice);
      (Done(voted.0), voted.1)
  }

  /** Runs the calls in order; answers one response per call and never
      `UpdateError`. */
  function Run(store: Store, calls: seq<Call>): (r: (seq<Response>, Store))
    ensures |r.0| == |calls|
    ensures forall i :: 0 <= i < |r.0| ==> r.0[i] != Done(Err(UpdateError))
    decreases |calls|
  {
    if |calls| == 0 then ([], store)
    else
      var first := Step(store, calls[0]);
      var rest := Run(first.1, calls[1..]);
      ([first.0] + rest.0, rest.1)
  }

  /** What holds of every record built by create and kept by every other
      operation: voters are distinct, approve and reject never go below zero
      nor pass above it, and the counters' net movement (approve and reject
      up, pass down) equals the number of voters. */
  ghost predicate Valid(p: Proposal)
  {
    && NoDuplicates(p.voted)
    && p.approve >= 0 && p.reject >= 0 && p.pass <= 0
    && p.approve + p.reject - p.pass == |p.voted|
  }

  ghost predicate Invariant(store: Store)
  {
    forall k :: k in store ==> Valid(store[k])
  }

  lemma CreateKeepsInvariant(store: Store, caller: Principal, key: Key, input: ProposalInput)
    requires Invariant(store)
    ensures Invariant(CreateProposal(store, caller, key, input).1)
  {
  }

  lemma EditKeepsInvariant(store: Store, caller: Principal, key: Key, input: ProposalInput)
    requires Invariant(store)
    ensures Invariant(EditProposal(store, caller, key, input).1)
  {
  }

  lemma EndKeepsInvariant(store: Store, caller: Principal, key: Key)
    requires Invariant(store)
    ensures Invariant(EndProposal(store, caller, key).1)
  {
  }

  lemma VoteKeepsInvariant(store: Store, caller: Principal, key: Key, choice: Choice)
    requires Invariant(store)
    ensures Invariant(Vote(store, caller, key, choice).1)
  {
  }

  lemma StepKeepsInvariant(store: Store, call: Call)
    requires Invariant(store)
    ensures Invariant(Step(store, call).1)
  {
    match call
    case Create(caller, key, input) => CreateKeepsInvariant(store, caller, key, input);
    case Edit(caller, key, input) => EditKeepsInvariant(store, caller, key, input);
    case End(caller, key) => EndKeepsInvariant(store, caller, key);
    case Cast(caller, key, choice) => VoteKeepsInvariant(store, caller, key, choice);
  }

  /** Every record reachable from an empty (or valid) store is valid. */
  lemma {:induction false} RunKeepsInvariant(store: Store, calls: seq<Call>)
    requires Invariant(store)
    ensures Invariant(Run(store, calls).1)
    decreases |calls|
  {
    if |calls| > 0 {
      StepKeepsInvariant(store, calls[0]);
      RunKeepsInvariant(Step(store, calls[0]).1, calls[1..]);
    }
  }

  /** Without create calls, no key appears or disappears and no owner
      changes. */
  lemma {:induction false} RunWithoutCreateKeepsKeysAndOwners(store: Store, calls: seq<Call>)
    requires forall i :: 0 <= i < |calls| ==> !calls[i].Create?
    ensures Run(store, calls).1.Keys == store.Keys
    ensures forall k :: k in store ==> Run(store, calls).1[k].owner == store[k].owner
    decreases |calls|
  {
    if |calls| > 0 {
      var next := Step(store, calls[0]).1;
      assert !calls[0].Create?;
      RunWithoutCreateKeepsKeysAndOwners(next, calls[1..]);
      assert Run(store, calls).1 == Run(next, calls[1..]).1;
    }
  }

  /** Hence only create calls move the count. */
  lemma RunWithoutCreateKeepsCount(store: Store, calls: seq<Call>)
    requires forall i :: 0 <= i < |calls| ==> !calls[i].Create?
    ensures GetProposalCount(Run(store, calls).1) == GetProposalCount(store)
  {
    RunWithoutCreateKeepsKeysAndOwners(store, calls);
    SameKeysSameLen(Run(store, calls).1, store);
  }

  /** A call that can make the closed proposal at `key`, owned by `owner`,
      active again: a create of that key, or the owner's edit of it with
      `is_active` set. */
  predicate Reopens(call: Call, key: Key, owner: Principal)
  {
    || (call.Create? && call.key == key)
    || (call.Edit? && call.key == key && call.caller == owner && call.input.is_active)
  }

  /** Along calls none of which reopens it, a closed proposal stays present,
      closed and with the same owner. */
  lemma {:induction false} ClosedStaysClosed(store: Store, calls: seq<Call>, key: Key)
    requires key in store && !store[key].is_active
    requires forall i :: 0 <= i < |calls| ==> !Reopens(calls[i], key, store[key].owner)
    ensures key in Run(store, calls).1 && !Run(store, calls).1[key].is_active
    ensures Run(store, calls).1[key].owner == store[key].owner
    decreases |calls|
  {
    if |calls| > 0 {
      var next := Step(store, calls[0]).1;
      assert !Reopens(calls[0], key, store[key].owner);
      assert key in next && !next[key].is_active && next[key].owner == store[key].owner;
      assert forall i :: 0 <= i < |calls| - 1 ==> calls[1..][i] == calls[i + 1];
      ClosedStaysClosed(next, calls[1..], key);
      assert Run(store, calls).1 == Run(next, calls[1..]).1;
    }
  }

  /** A key that no create call names is never filled in: a get of it
      answers nothing. */
  lemma {:induction false} KeyNeverCreatedStaysAbsent(store: Store, calls: seq<Call>, key: Key)
    requires key !in store
    requires forall i :: 0 <= i < |calls| ==> !(calls[i].Create? && calls[i].key == key)
    ensures GetProposal(Run(store, calls).1, key) == None
    decreases |calls|
  {
    if |calls| > 0 {
      assert !(calls[0].Create? && calls[0].key == key);
      KeyNeverCreatedStaysAbsent(Step(store, calls[0]).1, calls[1..], key);
    }
  }

  /** The responses of a non-empty run: the first call's, then the rest's. */
  lemma RunCons(store: Store, calls: seq<Call>)
    requires |calls| > 0
    ensures Run(store, calls).0[0] == Step(store, calls[0]).0
    ensures forall i :: 1 <= i < |calls| ==>
      Run(store, calls).0[i] == Run(Step(store, calls[0]).1, calls[1..]).0[i - 1]
  {
  }

  /** On such a key, every edit, close or vote is answered
      `NoSuchProposal`. */
  lemma {:induction false} KeyNeverCreatedAnswersNoSuchProposal(store: Store, calls: seq<Call>, key: Key)
    requires key !in store
    requires forall i :: 0 <= i < |calls| ==> !(calls[i].Create? && calls[i].key == key)
    ensures forall i :: 0 <= i < |calls| && calls[i].key == key ==>
      Run(store, calls).0[i] == Done(Err(NoSuchProposal))
    decreases |calls|
  {
    if |calls| > 0 {
      var next := Step(store, calls[0]).1;
      var tail := calls[1..];
      assert !(calls[0].Create? && calls[0].key == key);
      assert forall i :: 0 <= i < |tail| ==> tail[i] == calls[i + 1];
      KeyNeverCreatedAnswersNoSuchProposal(next, tail, key);
      RunCons(store, calls);
    }
  }
}
