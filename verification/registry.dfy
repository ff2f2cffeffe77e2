/**
  The active-visitor registry: a map from client id to the visitor's last
  activity time, with an upsert and an expiry sweep.  Times are milliseconds
  since the epoch, as returned by the host clock.
 */
module Registry {

  /** Two minutes, in milliseconds: the idle time after which a visitor is evicted. */
  const InactiveThreshold: int := 2 * 60 * 1000

  /** One registry entry; the id is stored both as the key and inside the entry. */
  datatype ActiveUser = ActiveUser(lastActive: int, clientId: string)

  type Registry = map<string, ActiveUser>

  /** An entry is idle at `now` when strictly more than the threshold has elapsed. */
  predicate Idle(now: int, user: ActiveUser)
  {
    now - user.lastActive > InactiveThreshold
  }

  /** Every entry carries the id it is filed under. */
  ghost predicate WellKeyed(active: Registry)
  {
    forall k :: k in active ==> active[k].clientId == k
  }

  /** Records activity of `id` at time `now`, replacing any earlier entry for it. */
  function Upsert(active: Registry, id: string, now: int): (r: Registry)
    ensures id in r && r[id].lastActive == now && r[id].clientId == id
    ensures r.Keys == active.Keys + {id}
    ensures forall k :: k in active && k != id ==> r[k] == active[k]
    ensures id in active ==> |r| == |active|
    ensures id !in active ==> |r| == |active| + 1
    ensures WellKeyed(active) ==> WellKeyed(r)
  {
    active[id := ActiveUser(now, id)]
  }

  /**
    The registry after evicting every idle entry at `now`: an entry survives
    exactly when at most the threshold has elapsed since its last activity.
   */
  function Sweep(active: Registry, now: int): (r: Registry)
    ensures r.Keys <= active.Keys
    ensures forall k :: k in active ==> (k in r <==> now - active[k].lastActive <= 120000)
    ensures forall k :: k in r ==> r[k] == active[k]
    ensures |r| <= |active|
    ensures WellKeyed(active) ==> WellKeyed(r)
  {
    var r := map k | k in active && !Idle(now, active[k]) :: active[k];
    SubsetCardinality(r.Keys, active.Keys);
    r
  }

  /** A subset is no larger than its superset. */
  lemma {:induction false} SubsetCardinality<T>(a: set<T>, b: set<T>)
    requires a <= b
    ensures |a| <= |b|
    decreases b
  {
    if a != {} {
      var x :| x in a;
      SubsetCardinality(a - {x}, b - {x});
    }
  }

  /**
    The sweep as the handler performs it: walk the entries one at a time and
    delete each idle one from the live map.  It computes the same registry as
    `Sweep`.
   */
  method SweepInPlace(active: Registry, now: int) returns (r: Registry)
    ensures r.Keys <= active.Keys
    ensures forall k :: k in active ==> (k in r <==> !Idle(now, active[k]))
    ensures forall k :: k in r ==> r[k] == active[k]
    ensures r == Sweep(active, now)
  {
    r := active;
    var pending := active.Keys;
    while pending != {}
      invariant pending <= active.Keys
      invariant r.Keys <= active.Keys
      invariant forall k :: k in r ==> r[k] == active[k]
      invariant forall k :: k in pending ==> k in r
      invariant forall k :: k in active && k !in pending ==> (k in r <==> !Idle(now, active[k]))
      decreases pending
    {
      var k :| k in pending;
      if Idle(now, r[k]) {
        r := r - {k};
      }
      pending := pending - {k};
    }
  }

  /** Sweeping twice at the same instant removes nothing more than sweeping once. */
  lemma SweepIdempotent(active: Registry, now: int)
    ensures Sweep(Sweep(active, now), now) == Sweep(active, now)
  {
  }

  /** An entry idle for exactly the threshold is kept: the comparison is strict. */
  lemma SweepKeepsBoundary(active: Registry, now: int, id: string)
    requires id in active && active[id].lastActive == now - InactiveThreshold
    ensures id in Sweep(active, now)
    ensures id !in Sweep(active, now + 1)
  {
  }

  /**
    An entry just written survives a sweep taken no more than the threshold
    later; together with the rest of the registry, the result is non-empty.
   */
  lemma UpsertSurvivesSweep(active: Registry, id: string, tUpsert: int, tSweep: int)
    requires tSweep - tUpsert <= InactiveThreshold
    ensures id in Sweep(Upsert(active, id, tUpsert), tSweep)
    ensures |Sweep(Upsert(active, id, tUpsert), tSweep)| >= 1
  {
  }
}
