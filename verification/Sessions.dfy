/**
  The registry of interactive authentication sessions (server/sessions.go): a table keyed by session
  id, a gauge of active sessions, and a sweep that evicts idle entries. Times are readings of a clock.
*/
module Sessions {
  import opened Base
  import opened Bodies

  datatype SessionContext = SessionContext(
    start: AuthenStart, flags: byte, remoteAddr: Bytes,
    createdAt: int, lastActive: int, lastOutboundSeq: byte)

  type Table = map<uint32, SessionContext>

  /** Five minutes in nanoseconds. */
  const DEFAULT_SESSION_TTL := 300_000_000_000

  // ---------------------------------------------------------------- what each operation does to the table

  function Registered(t: Table, id: uint32, ctx: SessionContext, now: int): Table {
    t[id := ctx.(createdAt := now, lastActive := now)]
  }

  function Updated(t: Table, id: uint32, fn: SessionContext -> SessionContext, now: int): Table {
    if id in t then t[id := fn(t[id].(lastActive := now))] else t
  }

  predicate Expired(ctx: SessionContext, ttl: int, now: int) {
    now - ctx.lastActive > ttl
  }

  function Swept(t: Table, ttl: int, now: int): Table {
    map id | id in t && !Expired(t[id], ttl, now) :: t[id]
  }

  // ---------------------------------------------------------------- runs of operations

  datatype Op =
    | Set(id: uint32, ctx: SessionContext)
    | Update(id: uint32, fn: SessionContext -> SessionContext)
    | Delete(id: uint32)
    | Sweep

  datatype Registry = Registry(sessions: Table, active: int)

  /** One locked operation, with the gauge moved the way the code moves it. */
  function Apply(r: Registry, ttl: int, op: Op, now: int): Registry {
    match op
    case Set(id, ctx) =>
      Registry(Registered(r.sessions, id, ctx, now), if id in r.sessions then r.active else r.active + 1)
    case Update(id, fn) =>
      r.(sessions := Updated(r.sessions, id, fn, now))
    case Delete(id) =>
      if id in r.sessions then Registry(r.sessions - {id}, r.active - 1) else r
    case Sweep =>
      var kept := Swept(r.sessions, ttl, now);
      Registry(kept, r.active - |r.sessions.Keys - kept.Keys|)
  }

  type Timed = (Op, int)

  function Run(r: Registry, ttl: int, ops: seq<Timed>): Registry
    decreases |ops|
  {
    if ops == [] then r else Run(Apply(r, ttl, ops[0].0, ops[0].1), ttl, ops[1..])
  }

  /** The gauge moves exactly as the number of entries does. */
  lemma ApplyKeepsGauge(r: Registry, ttl: int, op: Op, now: int)
    ensures var r' := Apply(r, ttl, op, now); r'.active - |r'.sessions.Keys| == r.active - |r.sessions.Keys|
  {
  }

  /** Started with nothing, the gauge equals the number of entries after any run. */
  lemma {:induction false} GaugeCountsEntries(r: Registry, ttl: int, ops: seq<Timed>)
    requires r.active == |r.sessions.Keys|
    ensures Run(r, ttl, ops).active == |Run(r, ttl, ops).sessions.Keys|
    decreases |ops|
  {
    if ops != [] {
      ApplyKeepsGauge(r, ttl, ops[0].0, ops[0].1);
      GaugeCountsEntries(Apply(r, ttl, ops[0].0, ops[0].1), ttl, ops[1..]);
    }
  }

  predicate Touches(op: Op, id: uint32) {
    !op.Sweep? && op.id == id
  }

  lemma ApplyElsewhere(r: Registry, ttl: int, op: Op, now: int, id: uint32)
    requires !Touches(op, id)
    ensures var r' := Apply(r, ttl, op, now).sessions;
            && (id in r' <==> id in r.sessions && (op.Sweep? ==> !Expired(r.sessions[id], ttl, now)))
            && (id in r' ==> r'[id] == r.sessions[id])
  {
  }

  /** What each operation leaves stored: an entry set or updated now was active now, a deleted one is gone,
      and a sweep keeps exactly the entries active within the TTL; nothing else changes. */
  lemma ApplyFacts(r: Registry, ttl: int, op: Op, now: int, id: uint32)
    ensures var t, t' := r.sessions, Apply(r, ttl, op, now).sessions;
            match op
            case Set(k, ctx) =>
              if k == id then id in t' && t'[id] == ctx.(createdAt := now, lastActive := now)
              else (id in t' <==> id in t) && (id in t ==> t'[id] == t[id])
            case Update(k, fn) =>
              && (id in t' <==> id in t)
              && (id in t ==> t'[id] == if k == id then fn(t[id].(lastActive := now)) else t[id])
            case Delete(k) => (id in t' <==> id in t && k != id) && (id in t' ==> t'[id] == t[id])
            case Sweep => (id in t' <==> id in t && now - t[id].lastActive <= ttl) && (id in t' ==> t'[id] == t[id])
  {
  }

  /** Left alone, an entry survives a run exactly when no sweep in it came more than the TTL after
      the entry was last active, and then it is unchanged. */
  lemma {:induction false} SweepsDecide(r: Registry, ttl: int, ops: seq<Timed>, id: uint32)
    requires id in r.sessions
    requires forall i | 0 <= i < |ops| :: !Touches(ops[i].0, id)
    ensures id in Run(r, ttl, ops).sessions <==>
            forall i | 0 <= i < |ops| :: ops[i].0.Sweep? ==> ops[i].1 - r.sessions[id].lastActive <= ttl
    ensures id in Run(r, ttl, ops).sessions ==> Run(r, ttl, ops).sessions[id] == r.sessions[id]
    decreases |ops|
  {
    hide Apply;
    if ops != [] {
      var r' := Apply(r, ttl, ops[0].0, ops[0].1);
      ApplyElsewhere(r, ttl, ops[0].0, ops[0].1, id);
      if id in r'.sessions {
        SweepsDecide(r', ttl, ops[1..], id);
        assert forall i | 0 <= i < |ops[1..]| :: ops[1..][i] == ops[i + 1];
      } else {
        StaysAbsent(r', ttl, ops[1..], id);
      }
    }
  }

  lemma {:induction false} StaysAbsent(r: Registry, ttl: int, ops: seq<Timed>, id: uint32)
    requires id !in r.sessions
    requires forall i | 0 <= i < |ops| :: !Touches(ops[i].0, id)
    ensures id !in Run(r, ttl, ops).sessions
    decreases |ops|
  {
    hide Apply;
    if ops != [] {
      ApplyElsewhere(r, ttl, ops[0].0, ops[0].1, id);
      StaysAbsent(Apply(r, ttl, ops[0].0, ops[0].1), ttl, ops[1..], id);
    }
  }

  /** Every sweep comes within the TTL of the last refresh before it, and nothing deletes the session;
      `active` is when it was last refreshed before the run. */
  predicate KeptFresh(active: int, ttl: int, ops: seq<Timed>, id: uint32)
    decreases |ops|
  {
    if ops == [] then true
    else
      && ops[0].0 != Delete(id)
      && (ops[0].0.Sweep? ==> ops[0].1 - active <= ttl)
      && KeptFresh(if Touches(ops[0].0, id) then ops[0].1 else active, ttl, ops[1..], id)
  }

  /** The changes the server makes through `Update` leave the time of activity alone. */
  ghost predicate KeepsActivity(op: Op) {
    op.Update? ==> forall c: SessionContext :: op.fn(c).lastActive == c.lastActive
  }

  /** A session that is refreshed within the TTL of every sweep survives a run of any length. */
  lemma {:induction false} RefreshedSurvives(r: Registry, ttl: int, ops: seq<Timed>, id: uint32)
    requires id in r.sessions && KeptFresh(r.sessions[id].lastActive, ttl, ops, id)
    requires forall i | 0 <= i < |ops| :: KeepsActivity(ops[i].0)
    ensures id in Run(r, ttl, ops).sessions
    decreases |ops|
  {
    hide Apply, KeepsActivity;
    if ops != [] {
      ApplyRefreshes(r, ttl, ops[0].0, ops[0].1, id);
      RefreshedSurvives(Apply(r, ttl, ops[0].0, ops[0].1), ttl, ops[1..], id);
    }
  }

  lemma ApplyRefreshes(r: Registry, ttl: int, op: Op, now: int, id: uint32)
    requires id in r.sessions && op != Delete(id) && KeepsActivity(op)
    requires op.Sweep? ==> now - r.sessions[id].lastActive <= ttl
    ensures var t := Apply(r, ttl, op, now).sessions;
            id in t && t[id].lastActive == if Touches(op, id) then now else r.sessions[id].lastActive
  {
  }

  // ---------------------------------------------------------------- the manager

  /** A sweep that has yet to look at `pending`. */
  function SweptSoFar(t: Table, ttl: int, now: int, pending: set<uint32>): Table {
    map id | id in t && (id in pending || !Expired(t[id], ttl, now)) :: t[id]
  }

  lemma SweepEnds(t: Table, ttl: int, now: int)
    ensures SweptSoFar(t, ttl, now, t.Keys) == t
    ensures SweptSoFar(t, ttl, now, {}) == Swept(t, ttl, now)
  {
  }

  lemma SweepOne(t: Table, ttl: int, now: int, pending: set<uint32>, id: uint32)
    requires id in pending && id in t
    ensures var m, m' := SweptSoFar(t, ttl, now, pending), SweptSoFar(t, ttl, now, pending - {id});
            && id in m && m[id] == t[id]
            && m' == (if Expired(t[id], ttl, now) then m - {id} else m)
            && |t.Keys - m'.Keys| == |t.Keys - m.Keys| + if Expired(t[id], ttl, now) then 1 else 0
  {
  }

  class SessionManager {
    const ttl: int
    var sessions: Table
    var active: int

    constructor (idle: int)
      ensures sessions == map[] && active == 0
      ensures ttl == if idle <= 0 then 5 * 60 * 1_000_000_000 else idle
    {
      ttl := if idle <= 0 then DEFAULT_SESSION_TTL else idle;
      sessions, active := map[], 0;
    }

    ghost function State(): Registry
      reads this
    {
      Registry(sessions, active)
    }

    /** How far the gauge is off; every operation leaves it as it is. */
    ghost function Drift(): int
      reads this
    {
      active - |sessions.Keys|
    }

    method Get(id: uint32) returns (r: Option<SessionContext>)
      ensures r == if id in sessions then Some(sessions[id]) else None
    {
      r := if id in sessions then Some(sessions[id]) else None;
    }

    method Set(id: uint32, ctx: SessionContext, now: int)
      modifies this
      ensures State() == Apply(old(State()), ttl, Op.Set(id, ctx), now)
      ensures sessions == Registered(old(sessions), id, ctx, now)
      ensures id in sessions && sessions[id] == ctx.(createdAt := now, lastActive := now)
      ensures forall j | j != id :: (j in sessions <==> j in old(sessions)) && (j in sessions ==> sessions[j] == old(sessions)[j])
      ensures Drift() == old(Drift())
    {
      ApplyKeepsGauge(State(), ttl, Op.Set(id, ctx), now);
      var stamped := ctx.(createdAt := now, lastActive := now);
      var existed := id in sessions;
      sessions := sessions[id := stamped];
      if !existed {
        active := active + 1;
      }
    }

    method Update(id: uint32, fn: SessionContext -> SessionContext, now: int)
      modifies this
      ensures State() == Apply(old(State()), ttl, Op.Update(id, fn), now)
      ensures sessions == Updated(old(sessions), id, fn, now)
      ensures sessions.Keys == old(sessions).Keys && (id in sessions ==> sessions[id] == fn(old(sessions)[id].(lastActive := now)))
      ensures forall j | j in sessions && j != id :: sessions[j] == old(sessions)[j]
      ensures Drift() == old(Drift())
    {
      ApplyKeepsGauge(State(), ttl, Op.Update(id, fn), now);
      if id !in sessions {
        return;
      }
      sessions := sessions[id := fn(sessions[id].(lastActive := now))];
    }

    method Delete(id: uint32)
      modifies this
      ensures State() == Apply(old(State()), ttl, Op.Delete(id), 0)
      ensures sessions == old(sessions) - {id}
      ensures Drift() == old(Drift())
    {
      ApplyKeepsGauge(State(), ttl, Op.Delete(id), 0);
      if id in sessions {
        sessions := sessions - {id};
        active := active - 1;
      }
    }

    method SweepExpired(now: int)
      modifies this
      ensures State() == Apply(old(State()), ttl, Op.Sweep, now)
      ensures Drift() == old(Drift())
    {
      hide SweptSoFar, Swept;
      ApplyKeepsGauge(State(), ttl, Op.Sweep, now);
      ghost var all := sessions;
      var pending := sessions.Keys;
      SweepEnds(all, ttl, now);
      while pending != {}
        invariant pending <= all.Keys
        invariant sessions == SweptSoFar(all, ttl, now, pending)
        invariant active == old(active) - |all.Keys - sessions.Keys|
        decreases pending
      {
        var id :| id in pending;
        SweepOne(all, ttl, now, pending, id);
        if now - sessions[id].lastActive > ttl {
          sessions := sessions - {id};
          active := active - 1;
        }
        pending := pending - {id};
      }
    }
  }
}
