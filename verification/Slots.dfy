/**
  Connection slots and draining (cmd/tacacs-cli/server.go, runServerCmd and connTracker).

  The accept loop and one goroutine per connection share a counting semaphore, a tracker and a wait
  group. A state holds these three and, for every thread, the point it has reached; steps of different
  threads interleave freely.
*/
module Slots {
  import opened Base

  type ConnId = nat

  /** Where the accept loop is: waiting, or holding a connection not yet tracked, or one not yet served. */
  datatype Loop = Waiting | Holding(c: ConnId) | Tracking(c: ConnId)

  datatype State = State(
    // shared data
    taken: int, tracker: set<ConnId>, wg: int, listening: bool,
    // control: goroutines serving, past releasing their slot, and past leaving the tracker
    loop: Loop, serving: set<ConnId>, released: set<ConnId>, removed: set<ConnId>)

  const INITIAL := State(0, {}, 0, true, Waiting, {}, {}, {})

  datatype Step =
    | Accept(c: ConnId)   // a connection arrives; it takes a slot or is rejected
    | Track               // the loop adds it to the tracker
    | Spawn               // the loop starts its goroutine
    | Finish(c: ConnId)   // serving ends and the slot is given back
    | Untrack(c: ConnId)  // the goroutine leaves the tracker
    | Exit(c: ConnId)     // the goroutine is done
    | Close               // the listener is closed

  predicate Known(s: State, c: ConnId) {
    c in s.serving || c in s.released || c in s.removed
  }

  /** Whether the thread concerned is at the point where it takes this step. */
  predicate Enabled(s: State, step: Step) {
    match step
    case Accept(c) => s.loop == Waiting && s.listening && !Known(s, c)
    case Track => s.loop.Holding?
    case Spawn => s.loop.Tracking?
    case Finish(c) => c in s.serving
    case Untrack(c) => c in s.released
    case Exit(c) => c in s.removed
    case Close => true
  }

  /** With a limit of 0 there is no semaphore. */
  function Next(s: State, limit: nat, step: Step): State
    requires Enabled(s, step)
  {
    match step
    case Accept(c) =>
      if limit > 0 && s.taken >= limit then s
      else s.(loop := Holding(c), taken := if limit > 0 then s.taken + 1 else s.taken)
    case Track => s.(loop := Tracking(s.loop.c), tracker := s.tracker + {s.loop.c})
    case Spawn => s.(loop := Waiting, serving := s.serving + {s.loop.c}, wg := s.wg + 1)
    case Finish(c) =>
      s.(serving := s.serving - {c}, released := s.released + {c},
         taken := if limit > 0 then s.taken - 1 else s.taken)
    case Untrack(c) => s.(released := s.released - {c}, removed := s.removed + {c}, tracker := s.tracker - {c})
    case Exit(c) => s.(removed := s.removed - {c}, wg := s.wg - 1)
    case Close => s.(listening := false)
  }

  /** The state after an interleaving of steps, provided each is enabled when it is taken. */
  function Run(limit: nat, steps: seq<Step>): Option<State> {
    if steps == [] then Some(INITIAL)
    else
      var last := steps[|steps| - 1];
      match Run(limit, steps[..|steps| - 1])
      case None => None
      case Some(s) => if Enabled(s, last) then Some(Next(s, limit, last)) else None
  }

  function Held(s: State): set<ConnId> {
    if s.loop.Waiting? then {} else {s.loop.c}
  }

  /** Every connection is in one place. */
  predicate Separate(s: State) {
    && s.serving !! s.released && s.serving !! s.removed && s.released !! s.removed
    && Held(s) !! s.serving && Held(s) !! s.released && Held(s) !! s.removed
  }

  /** The tracker holds the connections that are about to be served, served, or past giving their slot back. */
  predicate Tracked(s: State) {
    s.tracker == s.serving + s.released + (if s.loop.Tracking? then {s.loop.c} else {})
  }

  /** Slots and wait group count the threads exactly. */
  predicate Counted(s: State, limit: nat) {
    && s.taken == (if limit > 0 then |s.serving| + |Held(s)| else 0)
    && (limit > 0 ==> s.taken <= limit)
    && s.wg == |s.serving| + |s.released| + |s.removed|
  }

  predicate Accounted(s: State, limit: nat) {
    Separate(s) && Tracked(s) && Counted(s, limit)
  }

  lemma Sizes(a: set<ConnId>, c: ConnId)
    ensures c in a ==> |a - {c}| == |a| - 1
    ensures c !in a ==> |a + {c}| == |a| + 1
  {
  }

  lemma NextSeparates(s: State, limit: nat, step: Step)
    requires Separate(s) && Enabled(s, step)
    ensures Separate(Next(s, limit, step))
  {
  }

  lemma NextTracks(s: State, limit: nat, step: Step)
    requires Separate(s) && Tracked(s) && Enabled(s, step)
    ensures Tracked(Next(s, limit, step))
  {
  }

  lemma NextCounts(s: State, limit: nat, step: Step)
    requires Separate(s) && Counted(s, limit) && Enabled(s, step)
    ensures Counted(Next(s, limit, step), limit)
  {
    match step
    case Accept(c) =>
    case Track =>
    case Spawn =>
      Sizes(s.serving, s.loop.c);
    case Finish(c) =>
      Sizes(s.serving, c);
      Sizes(s.released, c);
    case Untrack(c) =>
      Sizes(s.released, c);
      Sizes(s.removed, c);
    case Exit(c) =>
      Sizes(s.removed, c);
    case Close =>
  }

  lemma {:induction false} RunsAreAccounted(limit: nat, steps: seq<Step>)
    ensures Run(limit, steps).Some? ==> Accounted(Run(limit, steps).value, limit)
  {
    hide Separate, Tracked, Counted, Next;
    if steps == [] {
      InitiallyAccounted(limit);
    } else {
      var front, last := steps[..|steps| - 1], steps[|steps| - 1];
      RunsAreAccounted(limit, front);
      if Run(limit, steps).Some? {
        NextSeparates(Run(limit, front).value, limit, last);
        NextTracks(Run(limit, front).value, limit, last);
        NextCounts(Run(limit, front).value, limit, last);
      }
    }
  }

  lemma InitiallyAccounted(limit: nat)
    ensures Accounted(INITIAL, limit)
  {
  }

  /** In every interleaving, with a positive limit, connections in service never exceed the slots taken,
      nor those the limit. */
  lemma ServiceIsBounded(limit: nat, steps: seq<Step>)
    requires Run(limit, steps).Some? && limit > 0
    ensures var s := Run(limit, steps).value; |s.serving| <= s.taken <= limit
  {
    hide Run;
    RunsAreAccounted(limit, steps);
  }

  /** When the loop has ended and the wait completes, no slot is taken, nothing is tracked and no
      goroutine is left. */
  lemma DrainedIsEmpty(limit: nat, steps: seq<Step>)
    requires Run(limit, steps).Some? && Run(limit, steps).value.loop == Waiting && Run(limit, steps).value.wg == 0
    ensures var s := Run(limit, steps).value;
            s.taken == 0 && s.tracker == {} && s.serving == {} && s.released == {} && s.removed == {}
  {
    hide Run;
    RunsAreAccounted(limit, steps);
  }

  lemma RunStep(limit: nat, steps: seq<Step>, step: Step)
    ensures Run(limit, steps + [step])
         == match Run(limit, steps)
            case None => None
            case Some(s) => if Enabled(s, step) then Some(Next(s, limit, step)) else None
  {
  }

  /** The tracker holds one connection for every slot taken, but for one accepted and not yet tracked,
      and one for every goroutine that has given its slot back and not yet left the tracker. So it
      exceeds the limit exactly when those goroutines outnumber the slots without a tracked connection. */
  lemma TrackerCount(limit: nat, steps: seq<Step>)
    requires Run(limit, steps).Some?
    ensures var s := Run(limit, steps).value;
            && |s.tracker| == |s.serving| + |s.released| + (if s.loop.Tracking? then 1 else 0)
            && (limit > 0 ==>
                  && |s.tracker| == s.taken + |s.released| - (if s.loop.Holding? then 1 else 0)
                  && (|s.tracker| > limit <==> |s.released| > limit - s.taken + (if s.loop.Holding? then 1 else 0)))
  {
    hide Run;
    RunsAreAccounted(limit, steps);
    var s := Run(limit, steps).value;
    var both := s.serving + s.released;
    assert |both| == |s.serving| + |s.released|;
    if s.loop.Tracking? {
      Sizes(both, s.loop.c);
    } else {
      assert s.tracker == both;
    }
  }

  /** A goroutine gives its slot back before it leaves the tracker, so the tracker can hold more
      connections than there are slots. */
  lemma TrackerCanExceedLimit() returns (steps: seq<Step>)
    ensures Run(1, steps).Some? && Run(1, steps).value.tracker == {0, 1}
  {
    hide Run;
    var a := [Accept(0)];
    var b := a + [Track];
    var c := b + [Spawn];
    var d := c + [Finish(0)];
    var e := d + [Accept(1)];
    steps := e + [Track];
    RunNothing(1);
    assert [] + [Accept(0)] == a;
    RunStep(1, [], Accept(0));
    RunStep(1, a, Track);
    RunStep(1, b, Spawn);
    RunStep(1, c, Finish(0));
    RunStep(1, d, Accept(1));
    RunStep(1, e, Track);
  }

  lemma RunNothing(limit: nat)
    ensures Run(limit, []) == Some(INITIAL)
  {
  }

  /** In every interleaving, a connection that arrives while the loop waits is taken exactly when there is no
      limit or fewer connections are in service than the limit; otherwise nothing changes. */
  lemma TakenIff(limit: nat, steps: seq<Step>, c: ConnId)
    requires Run(limit, steps).Some? && Enabled(Run(limit, steps).value, Accept(c))
    ensures var s := Run(limit, steps).value;
            var s' := Next(s, limit, Accept(c));
            if limit == 0 || |s.serving| < limit
            then s'.loop == Holding(c) && s'.taken == (if limit == 0 then 0 else |s.serving| + 1)
            else s' == s
  {
    hide Run;
    RunsAreAccounted(limit, steps);
  }
}
