/**
 * The deployed CertificateManager contract: an object whose `certificates`
 * mapping is updated in place by `issueCertificate` and `revokeCertificate`,
 * under an owner fixed at deployment. Each mutating method is proved against
 * the pure transitions of module Ledger, and keeps the log invariant of
 * LedgerLog; the reads return `Lookup` of the stored mapping.
 */
module Contract {
  import opened Ledger
  import opened LedgerLog

  class CertificateManager {
    /** The deploying account; no function of the contract reassigns it. */
    const owner: Address
    /** The public `certificates` mapping. */
    var certificates: map<Address, Certificate>
    /** The events emitted so far, oldest first; the contract never reads them. */
    ghost var events: seq<Event>

    /** The contract's storage and emitted events as one value. */
    ghost function Snapshot(): State
      reads this
    {
      State(owner, certificates, events)
    }

    ghost predicate Valid()
      reads this
    {
      Inv(Snapshot())
    }

    /** Deployment by `deployer` (the transaction's sender), with no arguments. */
    constructor (deployer: Address)
      ensures Valid()
      ensures Snapshot() == Deploy(deployer)
    {
      owner := deployer;
      certificates := map[];
      events := [];
      new;
      DeployInv(deployer);
    }

    /** `issueCertificate(target, title)` sent by `caller` in a block stamped `now`. */
    method IssueCertificate(caller: Address, target: Address, title: string, now: nat) returns (outcome: Outcome)
      requires Valid()
      modifies this
      ensures Valid()
      ensures Step(outcome, Snapshot()) == Issue(old(Snapshot()), caller, target, title, now)
    {
      if caller != owner {
        return Unauthorized;
      }
      if Lookup(certificates, target).valid {
        return AlreadyIssued;
      }
      certificates := certificates[target := Certificate(title, now, true)];
      events := events + [CertificateIssued(target, title, now)];
      outcome := Ok;
      ExecPreservesInv(old(Snapshot()), IssueCall(caller, target, title, now));
    }

    /** `revokeCertificate(target)` sent by `caller`. */
    method RevokeCertificate(caller: Address, target: Address) returns (outcome: Outcome)
      requires Valid()
      modifies this
      ensures Valid()
      ensures Step(outcome, Snapshot()) == Revoke(old(Snapshot()), caller, target)
    {
      if caller != owner {
        return Unauthorized;
      }
      if !(target in certificates && certificates[target].valid) {
        return NoValidCertificate;
      }
      certificates := certificates[target := certificates[target].(valid := false)];
      events := events + [CertificateRevoked(target)];
      outcome := Ok;
      ExecPreservesInv(old(Snapshot()), RevokeCall(caller, target));
    }

    /**
     * `checkCertificate(target)`, callable by anyone: the stored fields, or
     * ("", 0, false) for an address never written. A valid answer is backed
     * by the last event about `target`, a `CertificateIssued` with the same
     * title and date; an invalid one by a revocation or by no event at all.
     */
    method CheckCertificate(target: Address) returns (title: string, issueDate: nat, valid: bool)
      requires Valid()
      ensures target in certificates ==>
                title == certificates[target].title && issueDate == certificates[target].issueDate
                && valid == certificates[target].valid
      ensures target !in certificates ==> title == "" && issueDate == 0 && !valid
      ensures valid ==> var h := History(events, target);
                        |h| % 2 == 1 && h[|h| - 1] == CertificateIssued(target, title, issueDate)
      ensures !valid ==> var h := History(events, target);
                         |h| % 2 == 0 && (h != [] ==> h[|h| - 1] == CertificateRevoked(target))
    {
      var c := Lookup(certificates, target);
      title, issueDate, valid := c.title, c.issueDate, c.valid;
      if valid {
        ValidRecordIsLastIssue(Snapshot(), target);
      } else {
        InvalidRecordIsLastRevoke(Snapshot(), target);
      }
    }

    /** The public getter `certificates(target)`: the same record, default-zero when absent. */
    method GetCertificate(target: Address) returns (c: Certificate)
      ensures c == Lookup(certificates, target)
    {
      c := Lookup(certificates, target);
    }
  }
}
