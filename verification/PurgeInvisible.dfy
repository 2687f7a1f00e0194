/** The purge task only saves memory: no client can tell whether it ran, unless
    a purge reads the clock ahead of a handler and takes a lease that is still
    active at the handler's reading. */
module PurgeInvisible {
  import opened Prelude
  import opened DhcpPackets
  import opened Models
  import opened Database
  import opened Engine

  /** Same answers from `now` on: equal active leases in equal order, equal next id. */
  predicate SameView(a: LeaseTable, b: LeaseTable, now: int) {
    ActiveLeases(a.leases, now) == ActiveLeases(b.leases, now) && a.nextId == b.nextId
  }

  /** The clock reading with which the handlers go on. */
  function NextReading(es: seq<Event>): Option<int> {
    if es == [] then None
    else if IsReading(es[0]) then Some(es[0].now)
    else NextReading(es[1..])
  }

  /** `s` has seen purges that `t` has not; the next handler to look sees no difference. */
  predicate Similar(s: State, t: State, es: seq<Event>) {
    && s.net == t.net && s.task == t.task && s.clock == t.clock && s.table.nextId == t.table.nextId
    && (NextReading(es).Some? ==> SameView(s.table, t.table, NextReading(es).value))
  }

  function WithoutPurges(es: seq<Event>): seq<Event> {
    if es == [] then [] else (if es[0].PurgeRun? then [] else [es[0]]) + WithoutPurges(es[1..])
  }

  /** What is sent in answer to each packet and each resumption, in order. */
  function Replies(s: State, es: seq<Event>, d: LeaseSeconds): seq<Option<DhcpPacket>>
    decreases |es|
  {
    if es == [] then []
    else
      var (t, reply) := Step(s, es[0], d);
      (if es[0].PurgeRun? then [] else [reply]) + Replies(t, es[1..], d)
  }

  /** No purge takes a lease that is still active at the next reading of the handlers. */
  ghost predicate NoEarlyPurge(s: State, es: seq<Event>, d: LeaseSeconds)
    decreases |es|
  {
    es == [] || (!PurgesEarly(s, es) && NoEarlyPurge(Step(s, es[0], d).0, es[1..], d))
  }

  ghost predicate PurgesEarly(s: State, es: seq<Event>)
    requires es != []
  {
    es[0].PurgeRun? && NextReading(es[1..]).Some?
    && exists l :: l in s.table.leases && NextReading(es[1..]).value < l.leaseEnd < es[0].now
  }

  /** At every reading the handlers see the same leases in the run from `s` as in the purge-free run from `t`. */
  predicate SeesTheSame(s: State, t: State, es: seq<Event>, d: LeaseSeconds)
    decreases |es|
  {
    es == []
    || (&& (IsReading(es[0]) ==> SameView(s.table, t.table, es[0].now))
        && SeesTheSame(Step(s, es[0], d).0, if es[0].PurgeRun? then t else Step(t, es[0], d).0, es[1..], d))
  }

  lemma LaterView(a: LeaseTable, b: LeaseTable, now: int, later: int)
    requires SameView(a, b, now) && now <= later
    ensures SameView(a, b, later)
  {
    FilterAbsorbs(ActiveAt(later), ActiveAt(now), a.leases);
    FilterAbsorbs(ActiveAt(later), ActiveAt(now), b.leases);
  }

  lemma SameLookup(a: LeaseTable, b: LeaseTable, mac: string, now: int)
    requires SameView(a, b, now)
    ensures GetActiveLease(a.leases, mac, now) == GetActiveLease(b.leases, mac, now)
  {
    FindInFilter(ActiveLeaseOf(mac, now), ActiveAt(now), a.leases);
    FindInFilter(ActiveLeaseOf(mac, now), ActiveAt(now), b.leases);
  }

  lemma SameViewAfterExpire(a: LeaseTable, b: LeaseTable, id: int, now: int)
    requires SameView(a, b, now)
    ensures SameView(Expire(a, id), Expire(b, id), now)
  {
    FilterCommutes(ActiveAt(now), LeaseLacksId(id), a.leases);
    FilterCommutes(ActiveAt(now), LeaseLacksId(id), b.leases);
  }

  lemma SameViewAfterCreate(a: LeaseTable, b: LeaseTable, lease: Lease, now: int)
    requires SameView(a, b, now)
    ensures SameView(Create(a, lease), Create(b, lease), now)
  {
    FilterAppend(ActiveAt(now), a.leases, [lease.(id := Some(a.nextId))]);
    FilterAppend(ActiveAt(now), b.leases, [lease.(id := Some(b.nextId))]);
  }

  /** Exactly which readings can see a purge: those at which a removed lease was still active. */
  lemma PurgeSeenIff(t: LeaseTable, purge: int, now: int)
    ensures SameView(Purge(t, purge), t, now) <==> forall l :: l in t.leases ==> !(now < l.leaseEnd < purge)
  {
    FilterMembers(ActiveAt(now), t.leases);
    FilterMembers(ActiveAt(now), Purge(t, purge).leases);
    FilterMembers(NotPurgedAt(purge), t.leases);
    FilterCommutes(ActiveAt(now), NotPurgedAt(purge), t.leases);
    if forall l :: l in t.leases ==> !(now < l.leaseEnd < purge) {
      KeepAll(NotPurgedAt(purge), ActiveLeases(t.leases, now));
    } else {
      var l :| l in t.leases && now < l.leaseEnd < purge;
      assert l in ActiveLeases(t.leases, now) && l !in ActiveLeases(Purge(t, purge).leases, now);
    }
  }

  lemma {:induction false} KeepAll<T>(keep: T -> bool, s: seq<T>)
    requires forall x :: x in s ==> keep(x)
    ensures Filter(keep, s) == s
  {
    if s != [] {
      assert s[0] in s && forall x :: x in s[1..] ==> x in s;
      KeepAll(keep, s[1..]);
    }
  }

  /** Two tables that look alike to a handler make it answer alike, and look alike to it afterwards. */
  lemma SameViewAfterStep(s: State, t: State, e: Event, d: LeaseSeconds)
    requires IsReading(e) && s.net == t.net && s.task == t.task && s.clock == t.clock
    requires SameView(s.table, t.table, e.now)
    ensures var (s', reply), (t', reply') := Step(s, e, d), Step(t, e, d);
            reply == reply' && s'.task == t'.task && SameView(s'.table, t'.table, e.now)
  {
    match e {
      case Receive(packet, ifaceIps, now) => SameLookup(s.table, t.table, ClientOf(packet), now);
      case Resume(now) =>
        match s.task {
          case Expiring(id, g) => SameViewAfterExpire(s.table, t.table, id, now);
          case Releasing(mac, id) => SameViewAfterExpire(s.table, t.table, id, now);
          case Creating(g) => SameViewAfterCreate(s.table, t.table, NewLease(g, d, now), now);
          case _ =>
        }
    }
  }

  lemma {:induction false} NextReadingFrom(es: seq<Event>, lo: int)
    requires ReadingsFrom(es, lo) && NextReading(es).Some?
    ensures lo <= NextReading(es).value
  {
    if !IsReading(es[0]) {
      TailReadingsFrom(es, lo);
      NextReadingFrom(es[1..], lo);
    }
  }

  lemma SimilarStep(s: State, t: State, es: seq<Event>, d: LeaseSeconds)
    requires es != [] && !es[0].PurgeRun? && Similar(s, t, es) && Run(s, es, d)
    ensures Enabled(t, es[0]) && Step(s, es[0], d).1 == Step(t, es[0], d).1
    ensures Similar(Step(s, es[0], d).0, Step(t, es[0], d).0, es[1..])
  {
    var e, rest := es[0], es[1..];
    if IsReading(e) {
      SameViewAfterStep(s, t, e, d);
      var s', t' := Step(s, e, d).0, Step(t, e, d).0;
      if NextReading(rest).Some? {
        ReadingsGoUp(s', rest, d);
        NextReadingFrom(rest, s'.clock);
        LaterView(s'.table, t'.table, e.now, NextReading(rest).value);
      }
    }
  }

  lemma SimilarAfterPurge(s: State, t: State, es: seq<Event>, d: LeaseSeconds)
    requires es != [] && es[0].PurgeRun? && Similar(s, t, es) && !PurgesEarly(s, es)
    ensures Similar(Step(s, es[0], d).0, t, es[1..])
  {
    if NextReading(es[1..]).Some? {
      PurgeSeenIff(s.table, es[0].now, NextReading(es[1..]).value);
    }
  }

  lemma {:induction false} SimilarRun(s: State, t: State, es: seq<Event>, d: LeaseSeconds)
    requires Similar(s, t, es) && Run(s, es, d) && NoEarlyPurge(s, es, d)
    ensures Run(t, WithoutPurges(es), d)
    ensures Replies(s, es, d) == Replies(t, WithoutPurges(es), d)
    ensures SeesTheSame(s, t, es, d)
    decreases |es|
  {
    if es != [] {
      var e, rest := es[0], es[1..];
      if e.PurgeRun? {
        SimilarAfterPurge(s, t, es, d);
        SimilarRun(Step(s, e, d).0, t, rest, d);
        assert WithoutPurges(es) == WithoutPurges(rest);
        assert Replies(s, es, d) == Replies(Step(s, e, d).0, rest, d);
      } else {
        SimilarStep(s, t, es, d);
        SimilarRun(Step(s, e, d).0, Step(t, e, d).0, rest, d);
        var es' := WithoutPurges(es);
        assert es' == [e] + WithoutPurges(rest) && es'[1..] == WithoutPurges(rest);
      }
    }
  }

  /** A lease that only the purge-free run still shows at the next reading gives the purge away. */
  lemma {:induction false} LostLeaseIsSeen(s: State, t: State, es: seq<Event>, d: LeaseSeconds, l: Lease)
    requires NextReading(es).Some? && NextReading(es).value < l.leaseEnd && l in t.table.leases && l !in s.table.leases
    ensures !SeesTheSame(s, t, es, d)
    decreases |es|
  {
    if IsReading(es[0]) {
      FilterMember(ActiveAt(es[0].now), s.table.leases, l);
      FilterMember(ActiveAt(es[0].now), t.table.leases, l);
    } else {
      var s' := Step(s, es[0], d).0;
      if es[0].PurgeRun? {
        FilterMember(NotPurgedAt(es[0].now), s.table.leases, l);
      }
      LostLeaseIsSeen(s', if es[0].PurgeRun? then t else Step(t, es[0], d).0, es[1..], d, l);
    }
  }

  lemma {:induction false} EarlyPurgeIsSeen(s: State, t: State, es: seq<Event>, d: LeaseSeconds)
    requires Similar(s, t, es) && Run(s, es, d) && !NoEarlyPurge(s, es, d)
    ensures !SeesTheSame(s, t, es, d)
    decreases |es|
  {
    var e, rest := es[0], es[1..];
    if !e.PurgeRun? {
      SimilarStep(s, t, es, d);
      EarlyPurgeIsSeen(Step(s, e, d).0, Step(t, e, d).0, rest, d);
    } else if PurgesEarly(s, es) {
      var next := NextReading(rest).value;
      var l :| l in s.table.leases && next < l.leaseEnd < e.now;
      FilterMember(ActiveAt(next), s.table.leases, l);
      FilterMember(ActiveAt(next), t.table.leases, l);
      FilterMember(NotPurgedAt(e.now), s.table.leases, l);
      LostLeaseIsSeen(Step(s, e, d).0, t, rest, d, l);
    } else {
      SimilarAfterPurge(s, t, es, d);
      EarlyPurgeIsSeen(Step(s, e, d).0, t, rest, d);
    }
  }

  /** Whatever the purges' readings: the handlers see the same leases as without
      purges exactly when no purge takes a lease that is still active at their
      next reading, and then every reply is the same. */
  lemma PurgesUnseenIff(s: State, es: seq<Event>, d: LeaseSeconds)
    requires Run(s, es, d)
    ensures SeesTheSame(s, s, es, d) <==> NoEarlyPurge(s, es, d)
    ensures NoEarlyPurge(s, es, d) ==> Run(s, WithoutPurges(es), d) && Replies(s, es, d) == Replies(s, WithoutPurges(es), d)
  {
    if NoEarlyPurge(s, es, d) {
      SimilarRun(s, s, es, d);
    } else {
      EarlyPurgeIsSeen(s, s, es, d);
    }
  }

  lemma {:induction false} PunctualIsNotEarly(s: State, es: seq<Event>, d: LeaseSeconds)
    requires PunctualPurges(es)
    ensures NoEarlyPurge(s, es, d)
    decreases |es|
  {
    if es != [] {
      var rest := es[1..];
      forall k | 0 <= k < |rest| && rest[k].PurgeRun? ensures ReadingsFrom(rest[k + 1..], rest[k].now) {
        assert rest[k] == es[k + 1] && rest[k + 1..] == es[k + 1 + 1..];
      }
      PunctualIsNotEarly(Step(s, es[0], d).0, rest, d);
      if es[0].PurgeRun? && NextReading(rest).Some? {
        assert rest == es[0 + 1..];
        NextReadingFrom(rest, es[0].now);
      }
    }
  }

  /** Erasing every purge from a run leaves a run with the same answers, provided
      that no purge reads the clock ahead of a handler that follows it. */
  lemma PurgesAreInvisible(s: State, es: seq<Event>, d: LeaseSeconds)
    requires Run(s, es, d) && PunctualPurges(es)
    ensures Run(s, WithoutPurges(es), d)
    ensures Replies(s, es, d) == Replies(s, WithoutPurges(es), d)
  {
    PunctualIsNotEarly(s, es, d);
    PurgesUnseenIff(s, es, d);
  }
}
