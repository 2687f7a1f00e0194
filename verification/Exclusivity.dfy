/** Who holds an address over a whole run. */
module Exclusivity {
  import opened Prelude
  import opened Models
  import opened Database
  import opened Engine
  import opened Invariant

  /** The step acts on a lease of `mac` by removing it. */
  predicate RemovesFor(s: State, e: Event, mac: string) {
    e.Resume? && ((s.task.Expiring? && s.task.grant.mac == mac) || (s.task.Releasing? && s.task.mac == mac))
  }

  predicate Releases(s: State, e: Event, mac: string) {
    e.Resume? && s.task.Releasing? && s.task.mac == mac
  }

  /** The step writes a lease of `ip` for `mac` and acknowledges it. */
  predicate GrantsTo(s: State, e: Event, mac: string, ip: u32) {
    e.Resume? && s.task.Creating? && s.task.grant.mac == mac && s.task.grant.ip == ip
  }

  // ------------------------------------------------------------------
  // Isolation

  /** A step that does not act for a lease's own client keeps the lease, unless a purge finds it ended. */
  lemma OthersKeepLease(s: State, e: Event, d: LeaseSeconds, l: Lease)
    requires Inv(s, d) && Enabled(s, e)
    requires l in s.table.leases && !RemovesFor(s, e, l.macAddress) && (e.PurgeRun? ==> e.now <= l.leaseEnd)
    ensures l in Step(s, e, d).0.table.leases
  {
    match e {
      case PurgeRun(now) => FilterMember(NotPurgedAt(now), s.table.leases, l);
      case Resume(now) =>
        match s.task {
          case Expiring(id, g) => FilterMember(LeaseLacksId(id), s.table.leases, l);
          case Releasing(mac, id) => FilterMember(LeaseLacksId(id), s.table.leases, l);
          case _ =>
        }
      case _ =>
    }
  }

  ghost predicate NeverRemovesFor(s: State, es: seq<Event>, d: LeaseSeconds, mac: string)
    decreases |es|
  {
    es == [] || (!RemovesFor(s, es[0], mac) && NeverRemovesFor(Step(s, es[0], d).0, es[1..], d, mac))
  }

  /** Over any run in which its client neither renews nor releases, a lease stays
      in the table, unaltered, until a purge reads a time past its end: other
      clients and edits of the configuration never touch it. */
  lemma {:induction false} Isolation(s: State, es: seq<Event>, d: LeaseSeconds, l: Lease)
    requires Inv(s, d) && Run(s, es, d) && l in s.table.leases
    requires NeverRemovesFor(s, es, d, l.macAddress) && PurgesUpTo(es, l.leaseEnd)
    ensures l in After(s, es, d).table.leases
    decreases |es|
  {
    if es != [] {
      assert es[0] in es && forall e :: e in es[1..] ==> e in es;
      StepKeepsInv(s, es[0], d);
      OthersKeepLease(s, es[0], d, l);
      Isolation(Step(s, es[0], d).0, es[1..], d, l);
    }
  }

  /** Removing a lease by id removes at most that one row. */
  lemma ExpireRemovesOneRow(s: State, d: LeaseSeconds, id: int)
    requires Inv(s, d)
    ensures forall l :: l in Expire(s.table, id).leases <==> l in s.table.leases && l.id != Some(id)
    ensures forall a, b :: a in s.table.leases && b in s.table.leases && a.id == Some(id) && b.id == Some(id) ==> a == b
  {
    FilterMembers(LeaseLacksId(id), s.table.leases);
    forall a, b | a in s.table.leases && b in s.table.leases && a.id == Some(id) && b.id == Some(id) ensures a == b {
      SameRow(s.table, s.clock, d, a, b);
    }
  }

  /** The lease written by a renewal never ends before the one it replaces. */
  lemma RenewalNeverShortens(s: State, d: LeaseSeconds, now: int, p: Pause, prior: Lease)
    requires Inv(s, d) && s.task.Expiring? && s.clock <= now
    requires prior in s.table.leases && prior.id == Some(s.task.id)
    requires Enabled(After(Step(s, Resume(now), d).0, PurgeEvents(p.purges), d), Resume(p.now))
    ensures var leases := GoOn(Step(s, Resume(now), d).0, None, p, d).0.table.leases;
            && leases != []
            && var renewed := leases[|leases| - 1];
               && renewed.macAddress == prior.macAddress && renewed.ipAddress == prior.ipAddress
               && prior.leaseEnd <= renewed.leaseEnd
  {
    PurgesKeepTask(Step(s, Resume(now), d).0, p.purges, d);
  }

  // ------------------------------------------------------------------
  // Exclusivity

  /** `mac` holds `ip` until `until`, by a lease or by a grant about to be written. */
  ghost predicate Holds(s: State, mac: string, ip: u32, until: int) {
    || (exists l :: l in s.table.leases && l.macAddress == mac && l.ipAddress == ip && until <= l.leaseEnd)
    || (s.task.Creating? && s.task.grant.mac == mac && s.task.grant.ip == ip)
  }

  lemma StepKeepsHold(s: State, e: Event, d: LeaseSeconds, mac: string, ip: u32, until: int)
    requires Inv(s, d) && Enabled(s, e) && until - d <= s.clock && !Releases(s, e, mac) && (e.PurgeRun? ==> e.now <= until)
    requires s.clock < until ==> Holds(s, mac, ip, until)
    ensures var t := Step(s, e, d).0; t.clock < until ==> Holds(t, mac, ip, until)
  {
    var t := Step(s, e, d).0;
    if t.clock < until {
      if s.task.Creating? && s.task.grant.mac == mac && s.task.grant.ip == ip {
        if e.Resume? {
          var written := NewLease(s.task.grant, d, e.now).(id := Some(s.table.nextId));
          assert written in t.table.leases;
        } else {
          assert t.task == s.task;
        }
      } else {
        var l :| l in s.table.leases && l.macAddress == mac && l.ipAddress == ip && until <= l.leaseEnd;
        if e.Resume? && s.task.Expiring? && s.task.grant.mac == mac {
          FilterMember(LeaseLacksId(s.task.id), s.table.leases, l);
          if l.id == Some(s.task.id) {
            assert t.task == Creating(s.task.grant);
          } else {
            assert l in t.table.leases;
          }
        } else {
          OthersKeepLease(s, e, d, l);
        }
      }
    }
  }

  ghost predicate NeverReleases(s: State, es: seq<Event>, d: LeaseSeconds, mac: string)
    decreases |es|
  {
    es == [] || (!Releases(s, es[0], mac) && NeverReleases(Step(s, es[0], d).0, es[1..], d, mac))
  }

  lemma {:induction false} RunKeepsHold(s: State, es: seq<Event>, d: LeaseSeconds, mac: string, ip: u32, until: int)
    requires Inv(s, d) && Run(s, es, d) && until - d <= s.clock && NeverReleases(s, es, d, mac) && PurgesUpTo(es, until)
    requires s.clock < until ==> Holds(s, mac, ip, until)
    ensures var t := After(s, es, d); t.clock < until ==> Holds(t, mac, ip, until)
    decreases |es|
  {
    if es != [] {
      assert es[0] in es && forall e :: e in es[1..] ==> e in es;
      StepKeepsHold(s, es[0], d, mac, ip, until);
      StepKeepsInv(s, es[0], d);
      RunKeepsHold(Step(s, es[0], d).0, es[1..], d, mac, ip, until);
    }
  }

  // A purge may read the clock ahead of the handler that follows it and take a
  // lease which to that handler is still active. Over a run, `recent` bounds the
  // purges' readings so far, and `passed` those that a handler has followed.

  function RecentAfter(e: Event, recent: int): int {
    if e.PurgeRun? then Max(recent, e.now) else recent
  }

  function PassedAfter(e: Event, passed: int, recent: int): int {
    if IsReading(e) then Max(passed, recent) else passed
  }

  predicate Timed(es: seq<Event>, passed: int, recent: int) {
    CausalPurges(es) && ReadingsFrom(es, passed) && ReadingsAfterNext(es, recent)
  }

  lemma TailIsTimed(es: seq<Event>, passed: int, recent: int)
    requires es != [] && Timed(es, passed, recent)
    ensures Timed(es[1..], PassedAfter(es[0], passed, recent), RecentAfter(es[0], recent))
  {
    CausalTail(es, 1);
    TailReadingsFrom(es, passed);
    assert es[1..] == es[0 + 1..];
    if IsReading(es[0]) {
      FromImpliesAfterNext(es[1..], recent);
    }
  }

  /** The hold is intact unless it is over, or a purge has read a time past its
      end; who else is about to be granted the address has found it over or purged. */
  ghost predicate Waiting(s: State, mac: string, ip: u32, until: int, passed: int, recent: int) {
    && (s.clock < until && passed <= until ==> Holds(s, mac, ip, until) || recent > until)
    && (s.task.Creating? && s.task.grant.ip == ip && s.task.grant.mac != mac ==> until <= s.clock || passed > until)
  }

  lemma StepKeepsWaiting(s: State, e: Event, d: LeaseSeconds, mac: string, ip: u32, until: int, passed: int, recent: int)
    requires Inv(s, d) && Enabled(s, e) && until - d <= s.clock && !Releases(s, e, mac)
    requires Waiting(s, mac, ip, until, passed, recent)
    ensures Waiting(Step(s, e, d).0, mac, ip, until, PassedAfter(e, passed, recent), RecentAfter(e, recent))
  {
    StepKeepsInv(s, e, d);
    if s.clock < until && Holds(s, mac, ip, until) && (e.PurgeRun? ==> e.now <= until) {
      StepKeepsHold(s, e, d, mac, ip, until);
    }
  }

  lemma StateBehindFirst(s: State, es: seq<Event>, d: LeaseSeconds, k: nat)
    requires 0 < k <= |es|
    ensures After(s, es[..k], d) == After(Step(s, es[0], d).0, es[1..][..k - 1], d)
  {
    assert es[..k] == [es[0]] + es[1..][..k - 1];
    AfterFirst(s, es[0], es[1..][..k - 1], d);
  }

  /** From such a state on, nobody else is granted the address before `until`
      unless its client releases first. */
  lemma {:induction false} GrantWaits(s: State, es: seq<Event>, d: LeaseSeconds, j: nat, mac: string, mac': string, ip: u32,
                                      until: int, passed: int, recent: int) returns (k: nat)
    requires Inv(s, d) && Run(s, es, d) && until - d <= s.clock && j < |es| && mac != mac'
    requires Waiting(s, mac, ip, until, passed, recent) && Timed(es, passed, recent)
    requires GrantsTo(After(s, es[..j], d), es[j], mac', ip)
    ensures es[j].now >= until || (k < j && Releases(After(s, es[..k], d), es[k], mac))
    decreases |es|
  {
    k := 0;
    if j > 0 && !Releases(s, es[0], mac) {
      StepKeepsInv(s, es[0], d);
      StepKeepsWaiting(s, es[0], d, mac, ip, until, passed, recent);
      TailIsTimed(es, passed, recent);
      StateBehindFirst(s, es, d, j);
      var k' := GrantWaits(Step(s, es[0], d).0, es[1..], d, j - 1, mac, mac', ip, until,
                           PassedAfter(es[0], passed, recent), RecentAfter(es[0], recent));
      if k' < j - 1 {
        k := k' + 1;
        StateBehindFirst(s, es, d, k);
      }
    }
  }

  /** A run around the event at position `i`. */
  lemma SplitRun(s: State, es: seq<Event>, d: LeaseSeconds, i: nat)
    requires i < |es| && Run(s, es, d)
    ensures var si := After(s, es[..i], d);
            Run(s, es[..i], d) && Enabled(si, es[i]) && Run(Step(si, es[i], d).0, es[i + 1..], d)
  {
    assert es == es[..i] + ([es[i]] + es[i + 1..]);
    AfterAppend(s, es[..i], [es[i]] + es[i + 1..], d);
    AfterFirst(After(s, es[..i], d), es[i], es[i + 1..], d);
  }

  /** The state at a position beyond `i`, seen from behind the event at `i`. */
  lemma LaterState(s: State, es: seq<Event>, d: LeaseSeconds, i: nat, k: nat)
    requires i + 1 + k <= |es|
    ensures After(s, es[..i + 1 + k], d) == After(Step(After(s, es[..i], d), es[i], d).0, es[i + 1..][..k], d)
  {
    var rest := es[i + 1..][..k];
    assert es[..i + 1 + k] == es[..i] + ([es[i]] + rest);
    AfterAppend(s, es[..i], [es[i]] + rest, d);
    AfterFirst(After(s, es[..i], d), es[i], rest, d);
  }

  lemma AfterFirst(s: State, e: Event, rest: seq<Event>, d: LeaseSeconds)
    ensures After(s, [e] + rest, d) == After(Step(s, e, d).0, rest, d)
    ensures Run(s, [e] + rest, d) <==> Enabled(s, e) && Run(Step(s, e, d).0, rest, d)
  {
    assert ([e] + rest)[1..] == rest;
  }

  /** What holds right behind a grant. */
  lemma GrantHolds(s: State, es: seq<Event>, d: LeaseSeconds, i: nat, mac: string, ip: u32)
    requires Initial(s) && Run(s, es, d) && CausalPurges(es) && i < |es| && GrantsTo(After(s, es[..i], d), es[i], mac, ip)
    ensures var t, rest := Step(After(s, es[..i], d), es[i], d).0, es[i + 1..];
            && Inv(t, d) && Run(t, rest, d) && t.clock == es[i].now
            && Waiting(t, mac, ip, es[i].now + d, t.clock, t.clock) && Timed(rest, t.clock, t.clock)
  {
    SplitRun(s, es, d, i);
    RunKeepsInv(s, es[..i], d);
    var si := After(s, es[..i], d);
    StepKeepsInv(si, es[i], d);
    var t := Step(si, es[i], d).0;
    assert NewLease(si.task.grant, d, es[i].now).(id := Some(si.table.nextId)) in t.table.leases;
    CausalTail(es, i + 1);
    ReadingsGoUp(t, es[i + 1..], d);
    FromImpliesAfterNext(es[i + 1..], t.clock);
  }

  /** The step at position `k` behind the event at `i`. */
  predicate ReleasesBehind(s: State, es: seq<Event>, d: LeaseSeconds, i: nat, k: nat, mac: string)
    requires i + 1 + k < |es|
  {
    Releases(After(Step(After(s, es[..i], d), es[i], d).0, es[i + 1..][..k], d), es[i + 1..][k], mac)
  }

  lemma ReleaseLater(s: State, es: seq<Event>, d: LeaseSeconds, i: nat, k: nat, mac: string)
    requires i + 1 + k < |es| && ReleasesBehind(s, es, d, i, k, mac)
    ensures Releases(After(s, es[..i + 1 + k], d), es[i + 1 + k], mac)
  {
    LaterState(s, es, d, i, k);
  }

  /** The two grants, seen from behind the first. */
  lemma SecondGrantWaits(s: State, es: seq<Event>, d: LeaseSeconds, i: nat, j: nat, mac: string, mac': string, ip: u32) returns (k: nat)
    requires Initial(s) && Run(s, es, d) && CausalPurges(es) && i < j < |es|
    requires GrantsTo(After(s, es[..i], d), es[i], mac, ip) && GrantsTo(After(s, es[..j], d), es[j], mac', ip) && mac != mac'
    ensures es[j].now >= es[i].now + d || (k < j - i - 1 && ReleasesBehind(s, es, d, i, k, mac))
  {
    GrantHolds(s, es, d, i, mac, ip);
    LaterState(s, es, d, i, j - i - 1);
    var t := Step(After(s, es[..i], d), es[i], d).0;
    k := GrantWaits(t, es[i + 1..], d, j - i - 1, mac, mac', ip, es[i].now + d, t.clock, t.clock);
  }

  /** If a run grants an address to one client and later to another, then in
      between the first lease time ran out or the first client's RELEASE was
      processed, even with purges that slip between a handler's reading of the
      clock and its access to the table. */
  lemma Exclusivity(s: State, es: seq<Event>, d: LeaseSeconds, i: nat, j: nat, mac: string, mac': string, ip: u32)
    requires Initial(s) && Run(s, es, d) && CausalPurges(es) && i < j < |es|
    requires GrantsTo(After(s, es[..i], d), es[i], mac, ip) && GrantsTo(After(s, es[..j], d), es[j], mac', ip) && mac != mac'
    ensures es[j].now >= es[i].now + d || exists k :: i < k < j && Releases(After(s, es[..k], d), es[k], mac)
  {
    var k := SecondGrantWaits(s, es, d, i, j, mac, mac', ip);
    if es[j].now < es[i].now + d {
      ReleaseLater(s, es, d, i, k, mac);
    }
  }
}
