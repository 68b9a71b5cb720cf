/**
 * The event log as the ledger's history. Replaying the emitted events
 * rebuilds the `certificates` mapping exactly, and the events about any one
 * address alternate issue, revoke, issue, ... starting with an issue: the
 * per-address life cycle no record -> valid -> invalid -> valid -> ...
 */
module LedgerLog {
  import opened Ledger

  /** The effect of one event on the mapping. */
  function Apply(m: map<Address, Certificate>, e: Event): map<Address, Certificate>
  {
    match e
    case CertificateIssued(t, title, d) => m[t := Certificate(title, d, true)]
    case CertificateRevoked(t) => m[t := Lookup(m, t).(valid := false)]
  }

  /** The mapping that the events of `log`, applied in order, produce. */
  function Replay(log: seq<Event>): map<Address, Certificate>
  {
    if log == [] then map[] else Apply(Replay(log[..|log| - 1]), log[|log| - 1])
  }

  /** The events of `log` about address `a`, in order. */
  function History(log: seq<Event>, a: Address): (h: seq<Event>)
    ensures |h| <= |log|
    ensures forall i :: 0 <= i < |h| ==> h[i].target == a
  {
    if log == [] then []
    else
      var e := log[|log| - 1];
      History(log[..|log| - 1], a) + if e.target == a then [e] else []
  }

  /** Issue at even positions, revoke at odd ones. */
  ghost predicate Alternates(h: seq<Event>)
  {
    forall i :: 0 <= i < |h| ==> (h[i].CertificateIssued? <==> i % 2 == 0)
  }

  /**
   * The ledger invariant: the mapping is the replay of the log, and each
   * address's events alternate, with the record valid exactly when the last
   * of them is an issue.
   */
  ghost predicate Inv(s: State)
  {
    && s.certificates == Replay(s.log)
    && forall a :: Alternates(History(s.log, a)) && (Lookup(s.certificates, a).valid <==> |History(s.log, a)| % 2 == 1)
  }

  lemma ReplaySnoc(log: seq<Event>, e: Event)
    ensures Replay(log + [e]) == Apply(Replay(log), e)
    ensures forall a :: History(log + [e], a) == History(log, a) + if e.target == a then [e] else []
  {
    assert (log + [e])[..|log|] == log;
  }

  lemma DeployInv(deployer: Address)
    ensures Inv(Deploy(deployer))
  {
  }

  /** Every transaction, successful or reverted, keeps the invariant. */
  lemma {:induction false} ExecPreservesInv(s: State, c: Call)
    requires Inv(s)
    ensures Inv(Exec(s, c).post)
  {
    var r := Exec(s, c);
    if r.outcome == Ok {
      var e := r.post.log[|s.log|];
      assert r.post.log == s.log + [e];
      ReplaySnoc(s.log, e);
      assert r.post.certificates == Apply(s.certificates, e);
      forall a
        ensures Alternates(History(r.post.log, a))
        ensures Lookup(r.post.certificates, a).valid <==> |History(r.post.log, a)| % 2 == 1
      {
        var h := History(s.log, a);
        if a == c.target {
          assert History(r.post.log, a) == h + [e];
          assert e.CertificateIssued? <==> |h| % 2 == 0;
        } else {
          assert History(r.post.log, a) == h;
        }
      }
    }
  }

  /** Any sequence of transactions keeps the invariant. */
  lemma {:induction false} RunPreservesInv(s: State, calls: seq<Call>)
    requires Inv(s)
    ensures Inv(Run(s, calls))
    decreases |calls|
  {
    if calls != [] {
      ExecPreservesInv(s, calls[0]);
      RunPreservesInv(Exec(s, calls[0]).post, calls[1..]);
    }
  }

  /**
   * An event leaves other addresses' records alone, and what it makes of its
   * own address's record depends only on that record.
   */
  lemma ApplyAt(m1: map<Address, Certificate>, m2: map<Address, Certificate>, e: Event, a: Address)
    requires Lookup(m1, a) == Lookup(m2, a)
    ensures e.target != a ==> Lookup(Apply(m1, e), a) == Lookup(m1, a)
    ensures Lookup(Apply(m1, e), a) == Lookup(Apply(m2, e), a)
  {
  }

  /** The record stored for `a` depends only on the events about `a`. */
  lemma {:induction false} ReplayAt(log: seq<Event>, a: Address)
    ensures Lookup(Replay(log), a) == Lookup(Replay(History(log, a)), a)
    decreases |log|
  {
    if log != [] {
      var p, e := log[..|log| - 1], log[|log| - 1];
      var hp := History(p, a);
      ReplayAt(p, a);
      assert log == p + [e];
      ReplaySnoc(p, e);
      ApplyAt(Replay(p), Replay(hp), e, a);
      assert Replay(log) == Apply(Replay(p), e);
      assert Lookup(Replay(p), a) == Lookup(Replay(hp), a);
      if e.target == a {
        ReplaySnoc(hp, e);
        assert History(log, a) == hp + [e];
        assert Replay(History(log, a)) == Apply(Replay(hp), e);
      } else {
        assert History(log, a) == hp;
        assert Lookup(Replay(log), a) == Lookup(Replay(p), a);
      }
    }
  }

  /**
   * A valid record is the one written by the last event about its address,
   * and that event is a `CertificateIssued` carrying its title and date.
   */
  lemma ValidRecordIsLastIssue(s: State, a: Address)
    requires Inv(s)
    requires Lookup(s.certificates, a).valid
    ensures var h := History(s.log, a);
            && |h| % 2 == 1
            && h[|h| - 1] == CertificateIssued(a, Lookup(s.certificates, a).title, Lookup(s.certificates, a).issueDate)
  {
    var h := History(s.log, a);
    assert Alternates(h);
    var e := h[|h| - 1];
    assert e.CertificateIssued? && e.target == a;
    ReplayAt(s.log, a);
    ReplaySnoc(h[..|h| - 1], e);
    assert h[..|h| - 1] + [e] == h;
  }

  /** An invalid record for an address with history was last revoked. */
  lemma InvalidRecordIsLastRevoke(s: State, a: Address)
    requires Inv(s)
    requires !Lookup(s.certificates, a).valid
    ensures var h := History(s.log, a);
            && |h| % 2 == 0
            && (h != [] ==> h[|h| - 1] == CertificateRevoked(a))
  {
    var h := History(s.log, a);
    assert Alternates(h);
    if h != [] {
      assert !h[|h| - 1].CertificateIssued? && h[|h| - 1].target == a;
    }
  }
}
