# Proposal registry of the voting canister

The backend canister keeps a registry of voting proposals. It is a stable map
from a 64-bit unsigned key to a `Proposal` record, with these fields:

- `description`
- three signed counters: `approve`, `reject` and `pass`
- an `is_active` flag
- the list `voted` of principals that have voted
- the `owner` principal

Six entry points use the map:

- `get_proposal` and `get_proposal_count` read it.
- `create_proposal` upserts a fresh record owned by the caller.
- `edit_proposal` lets the owner replace `description` and `is_active`.
- `end_proposal` lets the owner clear `is_active`.
- `vote` records one vote per principal while the proposal is active.

This project models that registry in Dafny as pure functions, with these choices:

- The stable map is a `map<Key, Proposal>`.
- The calling principal is an explicit argument. `ic_cdk::caller()` is not modelled.
- Each update call returns its answer together with the store after the call.

Modules:

- `Types`: the records, `Choice`, `VoteError` and the `Result<(), VoteError>` outcome.
- `Store`: the map's get, len and insert.
- `Registry`: the six operations.
- `RegistryProperties`: lemmas that relate several calls.
- `Trace`: arbitrary sequences of update calls, and the invariants every stored record keeps along them.

Behaviours of the source that the model keeps as written, each pinned by a lemma:

- A `Pass` vote *decrements* the `pass` counter, while Approve and Reject increment theirs (`PassVoteDecrements`). The record invariant `Trace.Valid` therefore reads `approve + reject - pass == |voted|` with `pass <= 0`.
- `create_proposal` on an occupied key overwrites the record without any owner check. The new caller becomes the owner and the earlier votes are lost (`CreateTakesOverOccupiedKey`).
- `edit_proposal` takes `is_active` from its argument, so the owner can reopen a closed proposal (`EditCanReopen`). Activity is therefore not one-way; no check in the code prevents reopening, and the model follows the code. Only two calls can make a closed proposal active again: a create of its key, and its owner's edit with `is_active` set. Along every other call it stays closed (`Trace.ClosedStaysClosed`).
- `vote` checks "already voted" before "active", so a repeat voter on a closed proposal gets `AlreadyVoted` (`RepeatVoterOnClosedProposal`).
- Each write-back in edit, end and vote follows a successful lookup of the same key. The insert therefore always returns the previous record, and `UpdateError` is never answered. The model still keeps the source's `None => UpdateError` branch. On that branch the store after the insert is returned, as in the source, where the insert has already happened.

The Rust source does not compile as written; the model follows its evident intent. The defects include:

- `MemoryId::new(@)`.
- The `i64` key of `create_proposal`. It is treated as the map's `u64`.
- The closure annotation that names a `BTreeMap` that is never imported.
- `old_proposal` in `end_proposal` is assigned to without being declared `mut`.
- `get(&key).cloned()` in `get_proposal` calls `Option::cloned` on an owned `Option<Proposal>`.
- The `value.clone()` calls in edit, end and vote need `Clone`, which `Proposal` does not derive.

In every one of these places the model treats a clone as a copy of the record.

## Model

| member | source | states |
|---|---|---|
| Store.Get | src/final_project_backend/src/lib.rs:67 | the lookup answers a record exactly when the key is present, and then the stored one |
| Store.Len | src/final_project_backend/src/lib.rs:72 | the length of the map is the number of its keys |
| Store.InsertSize | src/final_project_backend/src/lib.rs:87 | overwriting a key keeps the map's size, inserting a fresh key adds one |
| Store.SameKeysSameLen | src/final_project_backend/src/lib.rs:72 | two maps with the same key set have the same length |
| Store.Insert | src/final_project_backend/src/lib.rs:87 | insert returns the previous value exactly when the key was present; afterwards the key holds the new value, no other key changes, and the size grows by one exactly on a fresh key |
| Registry.Contains | src/final_project_backend/src/lib.rs:165 | the linear scan of the voter list is true exactly when the principal is in the list |
| Registry.GetProposal | src/final_project_backend/src/lib.rs:65-68 | a read returns the stored record for a present key and nothing for an absent one |
| Registry.GetProposalCount | src/final_project_backend/src/lib.rs:70-73 | the count is the number of stored keys, so it is zero exactly for the empty registry |
| Registry.CreateProposal | src/final_project_backend/src/lib.rs:75-88 | create stores a record with zero counters, no voters, the caller as owner and the given description and activity; it returns the previous record at the key or nothing; other keys are untouched and the count grows by one exactly when the key was absent |
| Registry.EditProposal | src/final_project_backend/src/lib.rs:90-123 | absent key gives NoSuchProposal and a non-owner gives AccessRejected, both with the store unchanged; success happens exactly for the owner of a present key, replaces only description and is_active, keeps owner, voters and counters, and changes no other key; UpdateError is never returned |
| Registry.EndProposal | src/final_project_backend/src/lib.rs:125-150 | same error rules as edit with the store unchanged on failure; success happens exactly for the owner and clears is_active, keeping every other field and key; UpdateError is never returned |
| Registry.Tally | src/final_project_backend/src/lib.rs:171-176 | a choice moves exactly one counter by one: approve and reject up, pass down; no other field changes |
| Registry.Vote | src/final_project_backend/src/lib.rs:152-187 | absent key gives NoSuchProposal, a caller already in voted gets AlreadyVoted, otherwise an inactive proposal gives ProposalIsNotActive, each with the store unchanged; success happens exactly when the caller has not voted and the proposal is active, appends the caller to voted, moves one counter, keeps owner, description and activity and changes no other key; UpdateError and AccessRejected are never returned |
| RegistryProperties.CountChangesOnlyOnCreate | src/final_project_backend/src/lib.rs:70-88 | the count goes up by one exactly when create targets an absent key; edit, end and vote never change it |
| RegistryProperties.CreateTakesOverOccupiedKey | src/final_project_backend/src/lib.rs:76-88 | create on an occupied key returns the old record, makes the caller the owner and clears the voter list, without changing the count |
| RegistryProperties.EditRewritesOnlyTwoFields | src/final_project_backend/src/lib.rs:107-121 | an owner's edit succeeds, and the new store is the old one with only description and is_active of that record replaced |
| RegistryProperties.EndIsIdempotent | src/final_project_backend/src/lib.rs:141-148 | closing twice succeeds both times and the second close leaves the store as the first left it |
| RegistryProperties.EditCanReopen | src/final_project_backend/src/lib.rs:107-115 | the owner can make a closed proposal active again by editing it with is_active set |
| RegistryProperties.RepeatVoterOnClosedProposal | src/final_project_backend/src/lib.rs:165-169 | a caller who has voted gets AlreadyVoted even on an inactive proposal, with the store unchanged |
| RegistryProperties.PassVoteDecrements | src/final_project_backend/src/lib.rs:174 | a successful Pass vote lowers pass by one and leaves approve and reject unchanged |
| RegistryProperties.VoteKeepsVotersDistinct | src/final_project_backend/src/lib.rs:163-179 | after any vote call, a duplicate-free voter list is still duplicate-free |
| RegistryProperties.SecondVoteRefused | src/final_project_backend/src/lib.rs:163-185 | a first vote succeeds and grows voted by one; the same caller's second vote gets AlreadyVoted and changes nothing |
| RegistryProperties.Scenario | src/final_project_backend/src/lib.rs:75-187 | A creates key 1 with zero approvals and no voters; B's approve counts once and B's repeat is refused; A closes it; C's vote then gets ProposalIsNotActive and leaves the store unchanged |
| Trace.Step | src/final_project_backend/src/lib.rs:75-187 | one update call never answers UpdateError, changes no key but its own, adds a key only when it is a create, keeps the owner unless it is a create, and answers NoSuchProposal without effect when an edit, close or vote names an absent key |
| Trace.Run | src/final_project_backend/src/lib.rs:118-185 | a run of update calls answers once per call and never answers UpdateError, since none of the write-backs of edit (lib.rs:118-121), end (lib.rs:145-148) or vote (lib.rs:182-185) can find the key missing |
| Trace.CreateKeepsInvariant | src/final_project_backend/src/lib.rs:77-85 | a freshly created record (no voters, zero counters) is valid, and the other records stay valid |
| Trace.EditKeepsInvariant | src/final_project_backend/src/lib.rs:107-115 | edit keeps voters and counters, so every record stays valid |
| Trace.EndKeepsInvariant | src/final_project_backend/src/lib.rs:141-145 | close touches neither voters nor counters, so every record stays valid |
| Trace.VoteKeepsInvariant | src/final_project_backend/src/lib.rs:165-182 | a vote appends a voter not yet present and moves one counter by one, so every record stays valid |
| Trace.StepKeepsInvariant | src/final_project_backend/src/lib.rs:76-185 | one update call keeps every record valid: distinct voters, non-negative approve and reject, non-positive pass, and approve + reject - pass equal to the number of voters |
| Trace.RunKeepsInvariant | src/final_project_backend/src/lib.rs:76-185 | any sequence of update calls from a valid store, for example the empty one, keeps every record valid |
| Trace.RunWithoutCreateKeepsKeysAndOwners | src/final_project_backend/src/lib.rs:90-187 | along calls without create, the key set and every owner stay the same |
| Trace.RunWithoutCreateKeepsCount | src/final_project_backend/src/lib.rs:70-73 | along calls without create, the proposal count stays the same |
| Trace.ClosedStaysClosed | src/final_project_backend/src/lib.rs:76-187 | a closed proposal stays present, closed and with the same owner along any calls except a create of its key or its owner's edit with is_active set |
| Trace.KeyNeverCreatedStaysAbsent | src/final_project_backend/src/lib.rs:66-68 | along any calls in which no create names an absent key, the key stays absent and a read of it answers nothing |
| Trace.KeyNeverCreatedAnswersNoSuchProposal | src/final_project_backend/src/lib.rs:96-99 | along the same calls, every edit, close or vote on that key is answered NoSuchProposal |

## Left out

- Candid `Encode!`/`Decode!` in the `Storable` implementation (lib.rs:43-51): a foreign library whose byte format is not visible. Records are stored as Dafny values, so the round trip holds trivially and is not stated.
- The 5000-byte `MAX_VALUE_SIZE` bound (lib.rs:8, 53-56): the encoded size depends on the Candid encoding, so it cannot be computed. An oversized write is not modelled. Every write is assumed to fit.
- `MemoryManager`, `VirtualMemory`, `StableBTreeMap` and the `thread_local!`/`RefCell` plumbing (lib.rs:58-63): they are replaced by a Dafny `map`.
- `ic_cdk::caller()` and the `#[ic_cdk::query]`/`#[ic_cdk::update]` boundary: the caller is an explicit `Principal` argument. A principal is an opaque byte string that is only compared for equality.
- i32 counters: `approve`, `reject` and `pass` are unbounded integers. Rust's overflow panic or wrap-around is not modelled.
- Registry.GetProposalCount: returns a `nat` rather than a `u64`. The cast `len() as u64` is not modelled.
- Concurrency: calls run one at a time to completion, and the trace model applies them in sequence.
