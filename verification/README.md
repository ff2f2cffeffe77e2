# Visitor tracking endpoint, modelled in Dafny

The site's `/api/visitors` GET endpoint keeps two pieces of in-memory state:
a total visit counter and a registry of active visitors, a map from client id
to `{lastActive, clientId}`. Every request resolves the caller's id (the
`x-client-id` header, or a freshly generated UUID), overwrites the caller's
registry entry with the current time, adds one to the counter, evicts every
visitor idle for strictly more than two minutes (120 000 ms), and replies with
`{totalVisits, activeUsers, clientId}`.

The model is a pure state machine:

- `wrappers.dfy` — `Option`, used for the header that may be absent.
- `registry.dfy` (module `Registry`) — `ActiveUser`, the registry map, the
  upsert, the sweep as a map filter (`Sweep`) and as the entry-by-entry
  deletion loop the handler runs (`SweepInPlace`), and the invariant that
  each entry stores the id it is filed under (`WellKeyed`).
- `visitors.dfy` (module `Visitors`) — the handler state, one request as a
  step (`Step`, and `HandleGet` in the handler's own statement order), request
  traces (`Run`, `Replies`) and the properties of traces.

The host clock and the UUID generator are inputs: each `Request` carries the
header, the fresh id the generator would return, and the two clock readings
the handler takes (`tUpsert` when it writes the caller's entry, `tSweep` when
it sweeps). The caller survives its own sweep only when
`tSweep - tUpsert <= 120000`; that assumption is the predicate `PromptSweep`
and appears only where it is needed.

Other versions of this endpoint in the repository gate the increment behind
an `x-update-total` header and store a `firstSeen` time;
`src/pages/api/visitors.ts` does neither, so the model follows it: the
increment is unconditional, it happens before the sweep, and an entry is
`{lastActive, clientId}` only.

## Model

| member | source | states |
|---|---|---|
| Visitors.ResolveClientId | src/pages/api/visitors.ts:25 | the id is the header when present and non-empty; a missing or empty header gives the fresh id; the id is non-empty whenever the fresh id is |
| Visitors.EchoedIdIsReused | src/pages/api/visitors.ts:25-47 | the id a reply hands back, sent as the header of any later request, resolves to that same id whatever UUID is generated |
| Registry.Upsert | src/pages/api/visitors.ts:28-31 | the caller's entry holds the given time and its own id; every other key keeps its entry; the key set gains only the caller; the size grows by one exactly when the caller was new; entries stay filed under their own id |
| Registry.Sweep | src/pages/api/visitors.ts:12-21 | an entry survives exactly when `now - lastActive <= 120000` (idle for exactly 120 000 ms is kept); survivors keep their values; no key is added; the size never grows; entries stay filed under their own id |
| Registry.SweepInPlace | src/pages/api/visitors.ts:16-20 | deleting idle entries one by one while walking the map keeps exactly the non-idle entries, unchanged, and equals the map-filter `Sweep` |
| Registry.SweepIdempotent | src/pages/api/visitors.ts:16-19 | sweeping twice at the same instant gives the registry of one sweep |
| Registry.SweepKeepsBoundary | src/pages/api/visitors.ts:14-17 | an entry idle for exactly two minutes is kept, and one millisecond later it is evicted |
| Registry.UpsertSurvivesSweep | src/pages/api/visitors.ts:28-37 | an entry written at `tUpsert` survives a sweep at `tSweep` when `tSweep - tUpsert <= 120000`, so the registry is non-empty |
| Visitors.Step | src/pages/api/visitors.ts:23-47 | one request adds exactly 1 to the counter; the reply reports the new counter, the registry size after the sweep, and the resolved id; a key is active afterwards exactly when it is the caller (with a prompt sweep) or an earlier entry not idle at `tSweep`; the caller's entry holds `tUpsert`, others are unchanged; with a prompt sweep the caller is present and `activeUsers >= 1`; entries stay filed under their own id |
| Visitors.HandleGet | src/pages/api/visitors.ts:23-43 | resolving, upserting, counting and then sweeping entry by entry produces the same state and reply as `Step` |
| Visitors.Run | src/pages/api/visitors.ts:34 | after any sequence of requests the counter has grown by exactly the number of requests (so it never decreases), and every registry entry is still filed under its own id |
| Visitors.Replies | src/pages/api/visitors.ts:34-42 | one reply per request, and the i-th reply reports the starting count plus i + 1 |
| Visitors.RepliesMatchRun | src/pages/api/visitors.ts:34-41 | the i-th reply reports exactly the counter and the registry size of the state reached after the first i + 1 requests, so replies and states describe the same run |
| Visitors.ReturningVisitorNotRecounted | src/pages/api/visitors.ts:28-41 | a request from a client already in the registry never raises the reported active count above the registry size before it |
| Visitors.SoleClientStep | src/pages/api/visitors.ts:25-42 | when at most client `x` is active and `x` requests with a prompt sweep, `x` is the only active visitor and the reply counts it once |
| Visitors.SingleClientCountedOnce | src/pages/api/visitors.ts:28-42 | a client that keeps sending the same id, each sweep prompt, is counted exactly once in every reply, and every reply echoes its id |
| Visitors.ThreeVisitScenario | src/pages/api/visitors.ts:23-43 | a headerless first visit, a return a minute later and a return after a three-minute gap reply with counters 1, 2, 3, active count 1 each time, and the generated id throughout |

## Left out

- HTTP response construction: JSON serialisation, the `Content-Type`, `x-client-id` and CORS headers and the status code are boundary plumbing; the reply is the three body fields, and the echoed header carries the same `clientId`.
- `crypto.randomUUID()` and `Date.now()` are non-deterministic host calls; they are the `freshId`, `tUpsert` and `tSweep` fields of each request. Nothing is assumed about their uniqueness or ordering beyond the `PromptSweep` hypothesis where stated.
- The `try/catch` path and `console.error`: none of the modelled operations can fail, and logging is I/O.
- The Astro route wrapper and the `async` shape of the handler.
- Concurrent requests on the shared module-level state: requests are a sequential trace.
- Visitors.Run: the counter is an unbounded natural number; the JavaScript `number` it models stays exact only up to 2^53 visits.
- Registry.Sweep: timestamps are unbounded integers; JavaScript subtracts millisecond timestamps as doubles, which is exact for any realistic clock value.
- Persistent storage, the degraded 503/500 replies with zeroed stats, the `x-update-total` flag and `firstSeen` belong to other versions of the endpoint, not to `src/pages/api/visitors.ts`.
