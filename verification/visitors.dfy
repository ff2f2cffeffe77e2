/**
  The visitor-tracking endpoint as a state machine.  Its state is the total
  visit counter and the active-visitor registry; each GET request is one step
  that resolves the caller's id, records its activity, counts the visit,
  evicts idle visitors and reports the counts.  The host clock and the UUID
  generator are inputs carried by each request.
 */
module Visitors {
  import opened Wrappers
  import opened Registry

  /** The handler's module-level state. */
  datatype State = State(totalVisits: nat, active: Registry)

  /**
    One GET request: the `x-client-id` header (if sent), the UUID the handler
    would generate, and the two clock readings taken for the upsert and for
    the sweep.
   */
  datatype Request = Request(header: Option<string>, freshId: string, tUpsert: int, tSweep: int)

  /** The three fields of the JSON body; `clientId` is also echoed as a header. */
  datatype Reply = Reply(totalVisits: nat, activeUsers: nat, clientId: string)

  /** The state after one request together with the reply it produced. */
  datatype Handled = Handled(next: State, reply: Reply)

  /** The state when the server starts. */
  const Initial: State := State(0, map[])

  /**
    The caller's id: the header when it is sent and non-empty, otherwise the
    freshly generated id (an empty header counts as absent).
   */
  function ResolveClientId(header: Option<string>, freshId: string): (id: string)
    ensures header.Some? && header.value != "" ==> id == header.value
    ensures header.None? || header.value == "" ==> id == freshId
    ensures freshId != "" ==> id != ""
  {
    if header.Some? && header.value != "" then header.value else freshId
  }

  /** The clock readings of one request lie at most the threshold apart. */
  predicate PromptSweep(req: Request)
  {
    req.tSweep - req.tUpsert <= InactiveThreshold
  }

  /** Handles one GET request. */
  function Step(s: State, req: Request): (h: Handled)
    ensures h.next.totalVisits == s.totalVisits + 1
    ensures h.reply.totalVisits == h.next.totalVisits
    ensures h.reply.activeUsers == |h.next.active|
    ensures h.reply.clientId == ResolveClientId(req.header, req.freshId)
    ensures var id := h.reply.clientId;
      forall k :: k in h.next.active <==>
        if k == id then req.tSweep - req.tUpsert <= 120000
        else k in s.active && req.tSweep - s.active[k].lastActive <= 120000
    ensures var id := h.reply.clientId;
      forall k :: k in h.next.active ==>
        h.next.active[k] == if k == id then ActiveUser(req.tUpsert, id) else s.active[k]
    ensures PromptSweep(req) ==> h.reply.clientId in h.next.active && h.reply.activeUsers >= 1
    ensures WellKeyed(s.active) ==> WellKeyed(h.next.active)
  {
    var id := ResolveClientId(req.header, req.freshId);
    var active := Sweep(Upsert(s.active, id, req.tUpsert), req.tSweep);
    var next := State(s.totalVisits + 1, active);
    Handled(next, Reply(next.totalVisits, |next.active|, id))
  }

  /**
    The handler in the order it runs: resolve the id, overwrite the caller's
    entry, count the visit, then sweep the live registry entry by entry.
    Counting before sweeping, as here, gives the same step as `Step`.
   */
  method HandleGet(s: State, req: Request) returns (h: Handled)
    ensures h == Step(s, req)
  {
    var clientId := ResolveClientId(req.header, req.freshId);
    var active := Upsert(s.active, clientId, req.tUpsert);
    var totalVisits := s.totalVisits + 1;
    active := SweepInPlace(active, req.tSweep);
    h := Handled(State(totalVisits, active), Reply(totalVisits, |active|, clientId));
  }

  /** The state after serving `reqs` in order, starting from `s`. */
  function Run(s: State, reqs: seq<Request>): (r: State)
    ensures r.totalVisits == s.totalVisits + |reqs|
    ensures WellKeyed(s.active) ==> WellKeyed(r.active)
    decreases |reqs|
  {
    if reqs == [] then s else Run(Step(s, reqs[0]).next, reqs[1..])
  }

  /** The replies sent while serving `reqs` in order, starting from `s`. */
  function Replies(s: State, reqs: seq<Request>): (rs: seq<Reply>)
    ensures |rs| == |reqs|
    ensures forall i :: 0 <= i < |rs| ==> rs[i].totalVisits == s.totalVisits + i + 1
    decreases |reqs|
  {
    if reqs == [] then []
    else
      var h := Step(s, reqs[0]);
      [h.reply] + Replies(h.next, reqs[1..])
  }

  /**
    A returning visitor does not add an entry: the reported count is at most
    the registry size before the request.
   */
  lemma ReturningVisitorNotRecounted(s: State, req: Request)
    requires ResolveClientId(req.header, req.freshId) in s.active
    ensures Step(s, req).reply.activeUsers <= |s.active|
  {
  }

  /**
    The id sent back with a reply, returned by the client as its header on a
    later request, resolves to the same id whatever fresh id is on offer.
   */
  lemma EchoedIdIsReused(s: State, req: Request, later: State, next: Request)
    requires req.freshId != ""
    requires next.header == Some(Step(s, req).reply.clientId)
    ensures Step(later, next).reply.clientId == Step(s, req).reply.clientId
  {
  }

  /**
    When only `x` may be active and `x` makes a request whose sweep is
    prompt, `x` is then the one and only active visitor.
   */
  lemma SoleClientStep(s: State, req: Request, x: string)
    requires s.active.Keys <= {x}
    requires ResolveClientId(req.header, req.freshId) == x
    requires PromptSweep(req)
    ensures Step(s, req).next.active.Keys == {x}
    ensures Step(s, req).reply == Reply(s.totalVisits + 1, 1, x)
  {
  }

  /**
    A client that keeps sending the same id, with each sweep prompt after its
    upsert, is counted exactly once in every reply, provided no other client
    was active to begin with.
   */
  lemma {:induction false} SingleClientCountedOnce(s: State, reqs: seq<Request>, x: string)
    requires x != ""
    requires s.active.Keys <= {x}
    requires forall i :: 0 <= i < |reqs| ==> reqs[i].header == Some(x) && PromptSweep(reqs[i])
    ensures forall i :: 0 <= i < |reqs| ==>
      Replies(s, reqs)[i].activeUsers == 1 && Replies(s, reqs)[i].clientId == x
    decreases |reqs|
  {
    if reqs != [] {
      var h := Step(s, reqs[0]);
      SoleClientStep(s, reqs[0], x);
      SingleClientCountedOnce(h.next, reqs[1..], x);
      var rs := Replies(s, reqs);
      assert rs == [h.reply] + Replies(h.next, reqs[1..]);
      forall i | 0 <= i < |reqs|
        ensures rs[i].activeUsers == 1 && rs[i].clientId == x
      {
        if i > 0 {
          assert reqs[1..][i - 1] == reqs[i];
        }
      }
    }
  }

  /**
    A first visit without a header at time `t`, a return one minute later
    and a return after a further three-minute gap: the counter reaches 3
    while the single client is counted once throughout.  On the third visit
    the stale entry is overwritten by the upsert before any sweep could
    evict it.
   */
  lemma ThreeVisitScenario(x: string, y: string, z: string, t: int)
    requires x != ""
    ensures var reqs := [Request(None, x, t, t),
                         Request(Some(x), y, t + 60000, t + 60000),
                         Request(Some(x), z, t + 240000, t + 240000)];
      Replies(Initial, reqs) == [Reply(1, 1, x), Reply(2, 1, x), Reply(3, 1, x)]
  {
    var r1 := Request(None, x, t, t);
    var r2 := Request(Some(x), y, t + 60000, t + 60000);
    var r3 := Request(Some(x), z, t + 240000, t + 240000);
    SoleClientStep(Initial, r1, x);
    var h1 := Step(Initial, r1);
    SingleClientCountedOnce(h1.next, [r2, r3], x);
    var rest := Replies(h1.next, [r2, r3]);
    assert rest == [Reply(2, 1, x), Reply(3, 1, x)];
    RepliesCons(Initial, r1, [r2, r3]);
    assert [r1] + [r2, r3] == [r1, r2, r3];
  }

  /** Serving one request and then the rest replies with the first reply followed by the rest's. */
  lemma RepliesCons(s: State, req: Request, rest: seq<Request>)
    ensures Replies(s, [req] + rest) == [Step(s, req).reply] + Replies(Step(s, req).next, rest)
  {
  }

  /**
    The i-th reply describes the state `Run` reaches after the first i + 1
    requests: its counter and its registry size.
   */
  lemma {:induction false} RepliesMatchRun(s: State, reqs: seq<Request>, i: nat)
    requires i < |reqs|
    ensures Replies(s, reqs)[i].totalVisits == Run(s, reqs[..i + 1]).totalVisits
    ensures Replies(s, reqs)[i].activeUsers == |Run(s, reqs[..i + 1]).active|
    decreases i
  {
    var h := Step(s, reqs[0]);
    assert reqs[..i + 1][1..] == reqs[1..][..i];
    assert Run(s, reqs[..i + 1]) == Run(h.next, reqs[1..][..i]);
    if i > 0 {
      RepliesMatchRun(h.next, reqs[1..], i - 1);
    }
  }
}
