# CertificateManager ledger, modelled in Dafny

The repository's core is the `CertificateManager` contract: a ledger that
maps an account address to a certificate record `{title, issueDate, valid}`,
under a single owner fixed at deployment. The owner issues certificates
(`issueCertificate(target, title)`) and revokes them
(`revokeCertificate(target)`). Anyone can read a record through
`checkCertificate(target)` or the public getter `certificates(target)`.
Every successful mutation emits an event: `CertificateIssued(target, title,
issueDate)` or `CertificateRevoked(target)`. Three revert strings exist:
"Only owner can perform this action", "Certificate already issued to this
address" and "No valid certificate found for this address". A reverted
transaction changes nothing.

The contract's Solidity text is not part of this model. Its behaviour is
rebuilt from the Hardhat test suite `packages/hardhat/test/YourContract.ts`
where that suite asserts it. The remaining details follow the contract's
documented behaviour and are listed below as assumptions.

Files:

- `ledger.dfy` (module `Ledger`): the values. It holds addresses as 160-bit
  integers, records, events and outcomes with their revert strings. It
  defines the ledger state, the default-zero read `Lookup`, and the
  transitions `Deploy`, `Issue`, `Revoke`, `Exec` and `Run` as pure functions.
- `ledger_log.dfy` (module `LedgerLog`): the event log as the ledger's
  history. `Replay` rebuilds the mapping from the log. `History` gives the
  events about one address. The invariant `Inv` says two things. First, the
  mapping equals the replay of the log. Second, the events about each
  address alternate: issue, revoke, issue, and so on. A record is valid
  exactly when that history has odd length. Every transaction keeps `Inv`.
- `certificate_manager.dfy` (module `Contract`): the contract as a class.
  It has a `const owner`, a mutable `certificates` map and an `events` log.
  Each mutating method is proved equal to the pure transition of `Ledger`
  and keeps `Inv`. The reads return `Ledger.Lookup` of the stored mapping.
- `ledger_properties.dfy` (module `LedgerProperties`): the test suite's
  scenarios and the re-issue cycle, stated for every state, address, title
  and timestamp. It also holds properties of whole runs of transactions.

Inputs the model takes as parameters:

- The transaction sender (`msg.sender`) is the `caller` argument. At
  deployment it is the constructor's `deployer` argument.
- The block timestamp is the `now: nat` argument.

Behaviours the test suite does not assert, taken as assumptions of the
model:

- Re-issuing to a revoked address succeeds and writes a fresh record
  (`LedgerProperties.ReissueCycle`).
- An address never written reads as `("", 0, false)` (`Ledger.Lookup`).
- The owner check comes before the already-issued check when issuing
  (`Ledger.Issue`, and the issue half of `LedgerProperties.NonOwnerRejected`).
  The only non-owner issue in the tests targets an address without a
  certificate, so either order gives the same revert there.
- Revoking keeps the record's title and issue date (`Ledger.Revoke`). The
  tests check only that `valid` becomes false.
- Revoking an already-revoked certificate fails with "No valid certificate
  found for this address" (`Ledger.Revoke`). The tests cover only an address
  that never received a certificate.
- The stored `issueDate` equals the issuing transaction's `now`
  (`Ledger.Issue`). The tests compare only the event's date with a timestamp
  and check that the stored date is positive.

## Model

| member | source | states |
|---|---|---|
| `Ledger.Deploy` | packages/hardhat/test/YourContract.ts:11-17 | deployment makes the deploying account the owner, with every address reading as the zero record and no events |
| `Ledger.Issue` | packages/hardhat/test/YourContract.ts:19-45 | a non-owner gets `Unauthorized`. The owner gets `AlreadyIssued` exactly when the target's record is valid, and `Ok` otherwise. A revert leaves the state unchanged. On success only the target's record changes, to `(title, now, true)`, and one `CertificateIssued` event is appended. The owner never changes |
| `Ledger.Revoke` | packages/hardhat/test/YourContract.ts:47-63 | a non-owner gets `Unauthorized`. The owner gets `NoValidCertificate` exactly when the target's record is not valid, and `Ok` otherwise. A revert leaves the state unchanged. On success the record keeps its title and date, `valid` becomes false, other addresses are untouched, and one `CertificateRevoked` event is appended |
| `Ledger.Run` | packages/hardhat/test/YourContract.ts:38-58 | over any sequence of transactions, the owner stays the same and the event log only grows by appending |
| `LedgerLog.DeployInv` | packages/hardhat/test/YourContract.ts:11-17 | a freshly deployed ledger satisfies the log invariant |
| `LedgerLog.ExecPreservesInv` | packages/hardhat/test/YourContract.ts:25-57 | every transaction keeps the invariant, whether it succeeds or reverts. The mapping stays the replay of the event log. Each address's events alternate issue/revoke, and the record is valid exactly when the last of them is an issue |
| `LedgerLog.RunPreservesInv` | packages/hardhat/test/YourContract.ts:38-58 | any sequence of transactions keeps the invariant |
| `LedgerLog.ReplayAt` | packages/hardhat/test/YourContract.ts:25-57 | the record the log yields for an address depends only on the events about that address |
| `LedgerLog.ValidRecordIsLastIssue` | packages/hardhat/test/YourContract.ts:28-34 | under the invariant, a valid record's last event is `CertificateIssued` with the record's own title and date |
| `LedgerLog.InvalidRecordIsLastRevoke` | packages/hardhat/test/YourContract.ts:52-57 | under the invariant, an invalid record's address has an even number of events, and the last of them, if any, is `CertificateRevoked` |
| `Contract.CertificateManager.constructor` | packages/hardhat/test/YourContract.ts:12-14 | the new contract's owner is the deployer, its mapping and log are empty, and the invariant holds |
| `Contract.CertificateManager.IssueCertificate` | packages/hardhat/test/YourContract.ts:19-45 | its outcome and the contract's new state are exactly those of `Ledger.Issue` on the old state, and the invariant is kept |
| `Contract.CertificateManager.RevokeCertificate` | packages/hardhat/test/YourContract.ts:47-63 | its outcome and the contract's new state are exactly those of `Ledger.Revoke` on the old state, and the invariant is kept |
| `Contract.CertificateManager.CheckCertificate` | packages/hardhat/test/YourContract.ts:65-74 | returns the stored fields, or `("", 0, false)` when the address was never written. A `true` answer is backed by a last `CertificateIssued` event with the same title and date. A `false` answer is backed by a last `CertificateRevoked` event, or by no event |
| `Contract.CertificateManager.GetCertificate` | packages/hardhat/test/YourContract.ts:32-34 | the public getter returns `Ledger.Lookup` of the stored mapping: the stored record, or the zero record when the address was never written |
| `LedgerProperties.OwnerIssueStoresAndEmits` | packages/hardhat/test/YourContract.ts:19-35 | the owner issuing to an address without a valid certificate succeeds. It stores `(title, now, true)` and emits `CertificateIssued(target, title, now)` |
| `LedgerProperties.SecondIssueRejected` | packages/hardhat/test/YourContract.ts:38-45 | after a successful issue, a second issue to the same address reverts with "Certificate already issued to this address", whatever its title. The first record stays unchanged |
| `LedgerProperties.RevokeAfterIssue` | packages/hardhat/test/YourContract.ts:47-58 | revoking a just-issued certificate succeeds. The record becomes `(title, date, false)` and the log gains `CertificateRevoked(target)` |
| `LedgerProperties.RevokeNeverIssuedRejected` | packages/hardhat/test/YourContract.ts:60-63 | the owner revoking a never-written address reverts with "No valid certificate found for this address" and changes nothing |
| `LedgerProperties.CheckAfterIssue` | packages/hardhat/test/YourContract.ts:65-74 | after an issue at a positive timestamp, the read gives the title, `valid = true` and an issue date above 0 |
| `LedgerProperties.NonOwnerRejected` | packages/hardhat/test/YourContract.ts:76-84 | a non-owner's issue and revoke both revert with "Only owner can perform this action" and change nothing. The owner check comes before the record check, even for an address without a certificate |
| `LedgerProperties.ReissueCycle` | packages/hardhat/test/YourContract.ts:47-58 | issue, revoke and issue again all succeed. The final record is the second issue's `(title', now', true)` |
| `LedgerProperties.RevertReasonsDistinct` | packages/hardhat/test/YourContract.ts:38-84 | the three revert strings are pairwise different, so a caller can tell the failures apart |
| `LedgerProperties.NonOwnerRunChangesNothing` | packages/hardhat/test/YourContract.ts:76-84 | any sequence of transactions none of which the owner sent leaves the ledger exactly as it was |
| `LedgerProperties.ValidUntilRevoked` | packages/hardhat/test/YourContract.ts:38-45 | a valid record stays exactly as issued through any transactions until the owner revokes it. Meanwhile every issue the owner sends to that address is rejected as already issued |

## Left out

- The Solidity source of the contract is not part of this model. The
  behaviour follows the test suite.
- The frontend (`packages/nextjs/app/page.tsx`,
  `packages/nextjs/components/*.tsx`) is left out. It is React UI, wallet
  clients, asynchronous transaction submission, alerts and theming. Its
  embedded ABI (a string `certificateId` argument and a `bool` result) does
  not match the tested contract, so it is not modelled. This includes the
  client-side `issuedCertificates` list.
- The deployment script `packages/hardhat/deploy/00_deploy_your_contract.ts`
  is Hardhat plumbing. Only its consequence is kept: the owner is the
  deployer and the constructor takes no arguments.
- EVM details are left out: gas, mining, the ethers and typechain call
  machinery, and event subscription. Events are an append-only `ghost`
  field `events`. The contract cannot read it; the model keeps it only to
  state what was emitted.
- Timestamps are an input `now: nat`. The model does not bound them to 256
  bits. It does not require successive transactions to carry increasing
  timestamps, so `issueDate` monotonicity across issues is not stated.
- `Ledger.Issue` emits the `now` of the issuing transaction. The test at
  `packages/hardhat/test/YourContract.ts:23-30` expects the event's date to
  equal the latest block timestamp read before the transaction was sent.
  Equating that value with the transaction's `now` is an assumption of the
  model. A chain that stamps each new block strictly later than the previous
  one would give the transaction a larger timestamp than the one read at
  line 23. A contract emitting its block's timestamp would then fail the
  equality at lines 28-30. The model does not decide how the chain stamps
  blocks.
- Titles are `string` (sequences of characters). Solidity's UTF-8 byte
  encoding of strings is not modelled.
