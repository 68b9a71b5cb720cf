/**
 * The CertificateManager ledger as values: one state, the two mutating
 * transactions as pure transitions, the default-zero read, and the run of a
 * sequence of transactions against a deployed ledger.
 */
module Ledger {

  /** 2^160: an EVM account address is a 20-byte unsigned integer. */
  const ADDRESS_BOUND: int := 0x1_0000_0000_0000_0000_0000_0000_0000_0000_0000

  newtype Address = x: int | 0 <= x < ADDRESS_BOUND

  /** One stored record of the `certificates` mapping. */
  datatype Certificate = Certificate(title: string, issueDate: nat, valid: bool)

  /** What the mapping yields for an address that was never written. */
  const NoCertificate := Certificate("", 0, false)

  /** The two events the contract emits. */
  datatype Event =
    | CertificateIssued(target: Address, title: string, issueDate: nat)
    | CertificateRevoked(target: Address)

  /** How a transaction ends: success, or one of the three reverts. */
  datatype Outcome = Ok | Unauthorized | AlreadyIssued | NoValidCertificate
  {
    /** The revert string the contract gives for each failure. */
    function RevertReason(): string
      requires !Ok?
    {
      match this
      case Unauthorized => "Only owner can perform this action"
      case AlreadyIssued => "Certificate already issued to this address"
      case NoValidCertificate => "No valid certificate found for this address"
    }
  }

  /** The contract's storage together with the events emitted so far. */
  datatype State = State(owner: Address, certificates: map<Address, Certificate>, log: seq<Event>)

  /** A transaction's outcome and the state after it. */
  datatype Step = Step(outcome: Outcome, post: State)

  /** Solidity mapping read: a missing key reads as the all-zero record. */
  function Lookup(certificates: map<Address, Certificate>, a: Address): Certificate
  {
    if a in certificates then certificates[a] else NoCertificate
  }

  /** Deployment: the deploying account becomes the owner; nothing is stored. */
  function Deploy(deployer: Address): (s: State)
    ensures s.owner == deployer && s.log == []
    ensures forall a :: Lookup(s.certificates, a) == NoCertificate
  {
    State(deployer, map[], [])
  }

  /** `issueCertificate(target, title)` sent by `caller` in a block stamped `now`. */
  function Issue(s: State, caller: Address, target: Address, title: string, now: nat): (r: Step)
    ensures r.post.owner == s.owner
    ensures r.outcome != NoValidCertificate
    ensures r.outcome == Unauthorized <==> caller != s.owner
    ensures r.outcome == AlreadyIssued <==> caller == s.owner && Lookup(s.certificates, target).valid
    ensures r.outcome == Ok <==> caller == s.owner && !Lookup(s.certificates, target).valid
    ensures r.outcome != Ok ==> r.post == s
    ensures r.outcome == Ok ==>
              && Lookup(r.post.certificates, target) == Certificate(title, now, true)
              && (forall a :: a != target ==> Lookup(r.post.certificates, a) == Lookup(s.certificates, a))
              && r.post.log == s.log + [CertificateIssued(target, title, now)]
  {
    if caller != s.owner then Step(Unauthorized, s)
    else if Lookup(s.certificates, target).valid then Step(AlreadyIssued, s)
    else
      var c := Certificate(title, now, true);
      Step(Ok, s.(certificates := s.certificates[target := c],
                  log := s.log + [CertificateIssued(target, title, now)]))
  }

  /** `revokeCertificate(target)` sent by `caller`. */
  function Revoke(s: State, caller: Address, target: Address): (r: Step)
    ensures r.post.owner == s.owner
    ensures r.outcome != AlreadyIssued
    ensures r.outcome == Unauthorized <==> caller != s.owner
    ensures r.outcome == NoValidCertificate <==> caller == s.owner && !Lookup(s.certificates, target).valid
    ensures r.outcome == Ok <==> caller == s.owner && Lookup(s.certificates, target).valid
    ensures r.outcome != Ok ==> r.post == s
    ensures r.outcome == Ok ==>
              && target in s.certificates
              && Lookup(r.post.certificates, target).title == Lookup(s.certificates, target).title
              && Lookup(r.post.certificates, target).issueDate == Lookup(s.certificates, target).issueDate
              && !Lookup(r.post.certificates, target).valid
              && (forall a :: a != target ==> Lookup(r.post.certificates, a) == Lookup(s.certificates, a))
              && r.post.log == s.log + [CertificateRevoked(target)]
  {
    if caller != s.owner then Step(Unauthorized, s)
    else if !Lookup(s.certificates, target).valid then Step(NoValidCertificate, s)
    else
      var c := Lookup(s.certificates, target).(valid := false);
      Step(Ok, s.(certificates := s.certificates[target := c],
                  log := s.log + [CertificateRevoked(target)]))
  }

  /** A transaction against the contract: who sent it and with what arguments. */
  datatype Call =
    | IssueCall(caller: Address, target: Address, title: string, now: nat)
    | RevokeCall(caller: Address, target: Address)

  function Exec(s: State, c: Call): Step
  {
    match c
    case IssueCall(caller, target, title, now) => Issue(s, caller, target, title, now)
    case RevokeCall(caller, target) => Revoke(s, caller, target)
  }

  /**
   * The transactions mined one after another. No transaction changes the
   * owner, and events are only ever appended.
   */
  function Run(s: State, calls: seq<Call>): (r: State)
    ensures r.owner == s.owner
    ensures s.log <= r.log
    decreases |calls|
  {
    if calls == [] then s else Run(Exec(s, calls[0]).post, calls[1..])
  }
}
