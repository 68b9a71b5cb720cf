/**
 * The ledger's behaviour, stated for every ledger state and every choice of
 * addresses, titles and timestamps: the scenarios of the test suite, the
 * re-issue cycle the contract's design allows, and properties of whole runs
 * of transactions.
 */
module LedgerProperties {
  import opened Ledger

  /** The owner issuing to an address without a valid certificate stores it valid and emits the event. */
  lemma OwnerIssueStoresAndEmits(s: State, target: Address, title: string, now: nat)
    requires !Lookup(s.certificates, target).valid
    ensures var r := Issue(s, s.owner, target, title, now);
            && r.outcome == Ok
            && Lookup(r.post.certificates, target) == Certificate(title, now, true)
            && r.post.log[|r.post.log| - 1] == CertificateIssued(target, title, now)
  {
  }

  /**
   * A second issue to an address whose certificate is still valid reverts
   * with "Certificate already issued to this address", whatever its title,
   * and the record of the first issue stays as it was.
   */
  lemma SecondIssueRejected(s: State, target: Address, title: string, now: nat, title': string, now': nat)
    requires Issue(s, s.owner, target, title, now).outcome == Ok
    ensures var s1 := Issue(s, s.owner, target, title, now).post;
            && Issue(s1, s.owner, target, title', now') == Step(AlreadyIssued, s1)
            && AlreadyIssued.RevertReason() == "Certificate already issued to this address"
            && Lookup(s1.certificates, target) == Certificate(title, now, true)
  {
  }

  /** Revoking a freshly issued certificate keeps its title and date, clears `valid` and emits the event. */
  lemma RevokeAfterIssue(s: State, target: Address, title: string, now: nat)
    requires Issue(s, s.owner, target, title, now).outcome == Ok
    ensures var s1 := Issue(s, s.owner, target, title, now).post;
            var r := Revoke(s1, s.owner, target);
            && r.outcome == Ok
            && Lookup(r.post.certificates, target) == Certificate(title, now, false)
            && r.post.log == s.log + [CertificateIssued(target, title, now), CertificateRevoked(target)]
  {
  }

  /**
   * Revoking an address that never received a certificate reverts with "No
   * valid certificate found for this address" and changes nothing.
   */
  lemma RevokeNeverIssuedRejected(s: State, target: Address)
    requires target !in s.certificates
    ensures Revoke(s, s.owner, target) == Step(NoValidCertificate, s)
    ensures NoValidCertificate.RevertReason() == "No valid certificate found for this address"
  {
  }

  /** Reading an issued certificate gives its title, `valid` and a positive date when the clock is positive. */
  lemma CheckAfterIssue(s: State, target: Address, title: string, now: nat)
    requires Issue(s, s.owner, target, title, now).outcome == Ok
    requires now > 0
    ensures var c := Lookup(Issue(s, s.owner, target, title, now).post.certificates, target);
            c.title == title && c.valid && c.issueDate > 0
  {
  }

  /**
   * A caller other than the owner is turned away with "Only owner can perform
   * this action" by both mutating functions, before any look at the record:
   * even revoking an address without a certificate reports the owner check.
   */
  lemma NonOwnerRejected(s: State, caller: Address, target: Address, title: string, now: nat)
    requires caller != s.owner
    ensures Issue(s, caller, target, title, now) == Step(Unauthorized, s)
    ensures Revoke(s, caller, target) == Step(Unauthorized, s)
    ensures Unauthorized.RevertReason() == "Only owner can perform this action"
  {
  }

  /** Issue, revoke and issue again all succeed, and the read reflects the second issue. */
  lemma ReissueCycle(s: State, target: Address, title: string, now: nat, title': string, now': nat)
    requires !Lookup(s.certificates, target).valid
    ensures var r1 := Issue(s, s.owner, target, title, now);
            var r2 := Revoke(r1.post, s.owner, target);
            var r3 := Issue(r2.post, s.owner, target, title', now');
            && r1.outcome == Ok && r2.outcome == Ok && r3.outcome == Ok
            && Lookup(r3.post.certificates, target) == Certificate(title', now', true)
  {
  }

  /** The three revert strings are pairwise different. */
  lemma RevertReasonsDistinct(o: Outcome, o': Outcome)
    requires o != Ok && o' != Ok && o != o'
    ensures o.RevertReason() != o'.RevertReason()
  {
  }

  /** Transactions none of which the owner sent leave the ledger exactly as it was. */
  lemma {:induction false} NonOwnerRunChangesNothing(s: State, calls: seq<Call>)
    requires forall i :: 0 <= i < |calls| ==> calls[i].caller != s.owner
    ensures Run(s, calls) == s
    decreases |calls|
  {
    if calls != [] {
      assert Exec(s, calls[0]).post == s;
      NonOwnerRunChangesNothing(s, calls[1..]);
    }
  }

  /**
   * A valid certificate stays exactly as issued through any transactions
   * until the owner revokes it; in particular every issue the owner sends to
   * its address is rejected as already issued.
   */
  lemma {:induction false} ValidUntilRevoked(s: State, calls: seq<Call>, a: Address, title: string, now: nat)
    requires Lookup(s.certificates, a).valid
    requires forall i :: 0 <= i < |calls| ==>
               !(calls[i].RevokeCall? && calls[i].caller == s.owner && calls[i].target == a)
    ensures Lookup(Run(s, calls).certificates, a) == Lookup(s.certificates, a)
    ensures Issue(Run(s, calls), s.owner, a, title, now).outcome == AlreadyIssued
    decreases |calls|
  {
    if calls != [] {
      var s1 := Exec(s, calls[0]).post;
      assert Lookup(s1.certificates, a) == Lookup(s.certificates, a);
      ValidUntilRevoked(s1, calls[1..], a, title, now);
    }
  }
}
