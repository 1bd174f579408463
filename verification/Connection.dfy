/**
  Serving one connection to completion (server/server.go, ServeConn and checkFlags).

  `Serve` says what happens to the bytes a client sends; the method `ServeConn` is the loop that does
  it. Other connections and the sweeper share the session table: between two packets of this
  connection they may change it in any way at all.
*/
module Connection {
  import opened Base
  import opened Framing
  import opened Sessions
  import opened Server
  import opened SessionSafety

  /** What surrounds the k-th packet: the handler, the clock, cancellation and the other connections. */
  datatype Env = Env(
    handler: nat -> Handler,
    times: nat -> Times,
    cancelled: nat -> bool,
    others: (nat, Table) -> Table)

  datatype Stop = Cancelled | ReadFailed(error: Error) | FlagRefused(error: Error) | FlagsChanged

  /** One packet read and the reply written for it; `dispatched` when the flag checks let it through. */
  datatype Exchange = Exchange(request: Packet, dispatched: bool, reply: Reply)

  datatype Served = Served(table: Table, exchanges: seq<Exchange>, calls: seq<Call>, stop: Stop, rest: Bytes)

  /** The per-packet policy: required under TLS, forbidden on legacy connections unless allowed. */
  function CheckFlags(mode: Mode, allowUnencrypted: bool, flags: byte): Option<Error> {
    if mode == Tls then
      if Unencrypted(flags) then None else Some(FlagMismatch)
    else
      if Unencrypted(flags) && !allowUnencrypted then Some(UnencryptedDisabled) else None
  }

  /** One iteration of the serving loop: the connection ends, or a packet is dispatched. */
  datatype Turn =
    | Ended(refused: seq<Exchange>, stop: Stop, rest: Bytes)
    | Dispatched(x: Exchange, call: Option<Call>, table: Table, rest: Bytes)

  function TakeTurn(allow: bool, key: Key, remote: Bytes, env: Env, k: nat, connFlags: Option<byte>, t: Table, input: Bytes): (r: Turn)
    ensures r.Dispatched? ==> |r.rest| < |input|
  {
    if env.cancelled(k) then Ended([], Cancelled, input)
    else
      match ReadFrame(key, input)
      case Stopped(e, rest) => Ended([], ReadFailed(e), rest)
      case Got(p, rest) =>
        var refused := CheckFlags(key.mode, allow, p.hdr.flags);
        if refused.Some? then Ended([Exchange(p, false, Generic)], FlagRefused(refused.value), rest)
        else if connFlags.Some? && p.hdr.flags != connFlags.value then
          Ended([Exchange(p, false, Generic)], FlagsChanged, rest)
        else
          var o := Step(env.others(k, t), p, remote, env.handler(k), env.times(k));
          Dispatched(Exchange(p, true, o.reply), o.call, o.table, rest)
  }

  function Made(call: Option<Call>): seq<Call> {
    if call.Some? then [call.value] else []
  }

  /** A connection with earlier exchanges and calls in front. */
  function Prepend(xs: seq<Exchange>, calls: seq<Call>, s: Served): Served {
    s.(exchanges := xs + s.exchanges, calls := calls + s.calls)
  }

  function Serve(allow: bool, key: Key, remote: Bytes, env: Env, k: nat, connFlags: Option<byte>, t: Table, input: Bytes): Served
    decreases |input|
  {
    match TakeTurn(allow, key, remote, env, k, connFlags, t, input)
    case Ended(refused, stop, rest) => Served(t, refused, [], stop, rest)
    case Dispatched(x, call, t', rest) =>
      Prepend([x], Made(call), Serve(allow, key, remote, env, k + 1, Some(x.request.hdr.flags), t', rest))
  }

  function Replies(xs: seq<Exchange>): (r: seq<Packet>)
    ensures |r| == |xs|
  {
    seq(|xs|, i requires 0 <= i < |xs| => ReplyPacket(xs[i].request.hdr, xs[i].reply))
  }

  // ---------------------------------------------------------------- requests and replies correspond

  /** What one iteration reads is the next packet of the stream. */
  lemma TurnReads(allow: bool, key: Key, remote: Bytes, env: Env, k: nat, connFlags: Option<byte>, t: Table, input: Bytes)
    ensures match TakeTurn(allow, key, remote, env, k, connFlags, t, input)
            case Ended(xs, stop, _) =>
              && |xs| <= 1
              && (stop.ReadFailed? ==> xs == [] && ReadAll(key, input) == Stream([], stop.error))
              && (xs != [] ==> xs[0].reply == Generic && ReadAll(key, input).packets != [] && ReadAll(key, input).packets[0] == xs[0].request)
            case Dispatched(x, _, _, rest) =>
              && ReadAll(key, input) == Stream([x.request] + ReadAll(key, rest).packets, ReadAll(key, rest).stop)
              && (x.reply.Typed? ==> |x.reply.body| >= 5)
  {
    hide ReadFrame, Step;
    if ReadFrame(key, input).Got? {
      TypedReplyNotEmpty(env.others(k, t), ReadFrame(key, input).packet, remote, env.handler(k), env.times(k));
    }
  }

  /** The packets answered are the first packets of the input, all of them when only a failed read
      ends the connection; a reply that is not the generic error has a body. */
  lemma {:induction false} RequestsAreTheInput(allow: bool, key: Key, remote: Bytes, env: Env, k: nat, connFlags: Option<byte>, t: Table, input: Bytes)
    ensures var s, reqs := Serve(allow, key, remote, env, k, connFlags, t, input), ReadAll(key, input);
            && |s.exchanges| <= |reqs.packets|
            && (s.stop.ReadFailed? ==> |s.exchanges| == |reqs.packets| && s.stop.error == reqs.stop)
            && forall i | 0 <= i < |s.exchanges| ::
                 && s.exchanges[i].request == reqs.packets[i]
                 && (s.exchanges[i].reply.Typed? ==> |s.exchanges[i].reply.body| >= 5)
    decreases |input|
  {
    hide ReadAll, TakeTurn;
    TurnReads(allow, key, remote, env, k, connFlags, t, input);
    var turn := TakeTurn(allow, key, remote, env, k, connFlags, t, input);
    if turn.Dispatched? {
      RequestsAreTheInput(allow, key, remote, env, k + 1, Some(turn.x.request.hdr.flags), turn.table, turn.rest);
    }
  }

  predicate Answers(reply: Packet, request: Packet) {
    && reply.hdr.sessionId == request.hdr.sessionId
    && reply.hdr.ptype == request.hdr.ptype
    && reply.hdr.version == request.hdr.version
    && reply.hdr.flags == request.hdr.flags
    && reply.hdr.seqNo == (request.hdr.seqNo + 1) % 256
  }

  /** Over a whole connection one packet is written per packet answered, the i-th answering the i-th
      packet of the input, with an empty body exactly for a generic error. Reading the output yields
      these packets whole exactly when no body is longer than a reader accepts. */
  lemma RepliesAnswerRequests(allow: bool, key: Key, remote: Bytes, env: Env, t: Table, input: Bytes)
    ensures var s := Serve(allow, key, remote, env, 0, None, t, input);
            var reqs, reps := ReadAll(key, input).packets, Replies(s.exchanges);
            && |reps| == |s.exchanges| <= |reqs|
            && (s.stop.ReadFailed? ==> |reps| == |reqs|)
            && (forall i | 0 <= i < |reps| :: Answers(reps[i], reqs[i]) && (reps[i].body == [] <==> s.exchanges[i].reply.Generic?))
            && (ReadAll(key, FrameAll(key, reps)) == Stream(SealAll(key, reps), EndOfStream) <==>
                forall i | 0 <= i < |reps| :: |reps[i].body| <= MAX_PACKET_SIZE)
  {
    hide Serve, ReadAll, FrameAll, ReadFrame, SealAll;
    var s := Serve(allow, key, remote, env, 0, None, t, input);
    var reqs, reps := ReadAll(key, input).packets, Replies(s.exchanges);
    RequestsAreTheInput(allow, key, remote, env, 0, None, t, input);
    ReadsDeliverable(key, input);
    forall i | 0 <= i < |reps|
      ensures Answers(reps[i], reqs[i]) && ValidVersion(reps[i].hdr.version)
    {
      assert s.exchanges[i].request == reqs[i];
    }
    StreamReadsBackIff(key, reps);
  }

  // ---------------------------------------------------------------- flags

  predicate FlagsAllowed(mode: Mode, allow: bool, flags: byte) {
    if mode == Tls then Unencrypted(flags) else Unencrypted(flags) ==> allow
  }

  predicate FlagsFit(mode: Mode, allow: bool, connFlags: Option<byte>, flags: byte) {
    FlagsAllowed(mode, allow, flags) && (connFlags.Some? ==> flags == connFlags.value)
  }

  lemma TurnChecksFlags(allow: bool, key: Key, remote: Bytes, env: Env, k: nat, connFlags: Option<byte>, t: Table, input: Bytes)
    ensures match TakeTurn(allow, key, remote, env, k, connFlags, t, input)
            case Ended(xs, _, _) =>
              |xs| <= 1 && (xs != [] ==> xs[0].reply == Generic && !xs[0].dispatched && !FlagsFit(key.mode, allow, connFlags, xs[0].request.hdr.flags))
            case Dispatched(x, _, _, _) =>
              x.dispatched && FlagsFit(key.mode, allow, connFlags, x.request.hdr.flags)
  {
    hide ReadFrame, Step;
  }

  /** Given the flags already fixed for the connection, exactly the packets that satisfy the policy
      and carry those flags are dispatched; any other packet is the last one read. */
  lemma {:induction false} FlagsFrom(allow: bool, key: Key, remote: Bytes, env: Env, k: nat, connFlags: Option<byte>, t: Table, input: Bytes)
    ensures var xs := Serve(allow, key, remote, env, k, connFlags, t, input).exchanges;
            xs != [] ==>
              var flags := if connFlags.Some? then connFlags.value else xs[0].request.hdr.flags;
              forall i | 0 <= i < |xs| ::
                && (xs[i].dispatched <==> FlagsFit(key.mode, allow, Some(flags), xs[i].request.hdr.flags))
                && (!xs[i].dispatched ==> i == |xs| - 1 && xs[i].reply == Generic)
    decreases |input|
  {
    hide TakeTurn;
    TurnChecksFlags(allow, key, remote, env, k, connFlags, t, input);
    var turn := TakeTurn(allow, key, remote, env, k, connFlags, t, input);
    if turn.Dispatched? {
      FlagsFrom(allow, key, remote, env, k + 1, Some(turn.x.request.hdr.flags), turn.table, turn.rest);
    }
  }

  /** Over a whole connection all dispatched packets carry the flags of the first packet; under TLS
      each has the unencrypted bit set, on a legacy connection none has it unless that is allowed. A
      packet that is not dispatched gets the generic error and ends the connection. */
  lemma FlagDiscipline(allow: bool, key: Key, remote: Bytes, env: Env, t: Table, input: Bytes)
    ensures var xs := Serve(allow, key, remote, env, 0, None, t, input).exchanges;
            forall i | 0 <= i < |xs| ::
              var flags := xs[i].request.hdr.flags;
              && (xs[i].dispatched <==> flags == xs[0].request.hdr.flags && FlagsAllowed(key.mode, allow, flags))
              && (!xs[i].dispatched ==> i == |xs| - 1 && xs[i].reply == Generic)
  {
    hide Serve;
    FlagsFrom(allow, key, remote, env, 0, None, t, input);
  }

  /** Why a connection ended: under TLS a packet lacked the unencrypted bit, on a legacy connection it had
      the bit without leave, or its flags were not those of the first packet. */
  lemma {:induction false} StopReasons(allow: bool, key: Key, remote: Bytes, env: Env, k: nat, connFlags: Option<byte>, t: Table, input: Bytes)
    ensures var s := Serve(allow, key, remote, env, k, connFlags, t, input);
            match s.stop
            case Cancelled => true
            case ReadFailed(_) => true
            case FlagRefused(e) =>
              && s.exchanges != []
              && var flags := s.exchanges[|s.exchanges| - 1].request.hdr.flags;
                 if key.mode == Tls then flags % 2 == 0 && e == FlagMismatch else flags % 2 == 1 && !allow && e == UnencryptedDisabled
            case FlagsChanged =>
              && s.exchanges != []
              && var first, last := s.exchanges[0].request.hdr.flags, s.exchanges[|s.exchanges| - 1].request.hdr.flags;
                 last != if connFlags.Some? then connFlags.value else first
    decreases |input|
  {
    hide ReadFrame, Step;
    var turn := TakeTurn(allow, key, remote, env, k, connFlags, t, input);
    if turn.Dispatched? {
      StopReasons(allow, key, remote, env, k + 1, Some(turn.x.request.hdr.flags), turn.table, turn.rest);
    }
  }

  const SINGLE_CONNECT: byte := 4

  /** A client that sets the single-connection flag on its first two packets and drops it from the third
      is cut off there, although the flag no longer has a meaning then. */
  lemma DroppedFlagEnds(allow: bool, key: Key, remote: Bytes, env: Env, t: Table, p: Packet, q: Packet, r: Packet)
    requires key.mode == Legacy && p.hdr.flags == q.hdr.flags == SINGLE_CONNECT && r.hdr.flags == 0
    requires Deliverable(p.hdr, p.body) && Deliverable(q.hdr, q.body) && Deliverable(r.hdr, r.body)
    requires !env.cancelled(0) && !env.cancelled(1) && !env.cancelled(2)
    ensures var s := Serve(allow, key, remote, env, 0, None, t, FrameAll(key, [p, q, r]));
            && |s.exchanges| == 3 && s.exchanges[0].dispatched && s.exchanges[1].dispatched && !s.exchanges[2].dispatched
            && s.stop == FlagsChanged
  {
    hide TakeTurn, Frame;
    var c := Frame(key, r.hdr, r.body);
    var bc := Frame(key, q.hdr, q.body) + c;
    var input := Frame(key, p.hdr, p.body) + bc;
    assert FrameAll(key, [p, q, r]) == input by {
      assert [p, q, r][1..] == [q, r] && [q, r][1..] == [r] && [r][1..] == [];
      assert FrameAll(key, []) == [] && FrameAll(key, [r]) == c + [] == c;
      assert FrameAll(key, [q, r]) == bc;
    }
    LegacyTurn(allow, key, remote, env, 0, None, t, p, bc);
    var t1 := TakeTurn(allow, key, remote, env, 0, None, t, input).table;
    LegacyTurn(allow, key, remote, env, 1, Some(SINGLE_CONNECT), t1, q, c);
    var t2 := TakeTurn(allow, key, remote, env, 1, Some(SINGLE_CONNECT), t1, bc).table;
    assert c + [] == c;
    LegacyTurn(allow, key, remote, env, 2, Some(SINGLE_CONNECT), t2, r, []);
    var last := Serve(allow, key, remote, env, 2, Some(SINGLE_CONNECT), t2, c);
    assert |last.exchanges| == 1 && !last.exchanges[0].dispatched && last.stop == FlagsChanged;
    var rest := Serve(allow, key, remote, env, 1, Some(SINGLE_CONNECT), t1, bc);
    assert |rest.exchanges| == 2 && rest.exchanges[1] == last.exchanges[0] && rest.stop == FlagsChanged;
  }

  /** A packet with the unencrypted bit clear on a legacy connection passes if its flags are the expected ones. */
  lemma LegacyTurn(allow: bool, key: Key, remote: Bytes, env: Env, k: nat, connFlags: Option<byte>, t: Table, p: Packet, rest: Bytes)
    requires key.mode == Legacy && !Unencrypted(p.hdr.flags) && Deliverable(p.hdr, p.body) && !env.cancelled(k)
    ensures var turn := TakeTurn(allow, key, remote, env, k, connFlags, t, Frame(key, p.hdr, p.body) + rest);
            if connFlags == None || connFlags == Some(p.hdr.flags)
            then turn.Dispatched? && turn.x.dispatched && turn.x.request.hdr.flags == p.hdr.flags && turn.rest == rest
            else turn.Ended? && turn.stop == FlagsChanged && |turn.refused| == 1 && !turn.refused[0].dispatched
  {
    hide Frame, ReadFrame, Step;
    FrameReadsBack(key, p.hdr, p.body, rest);
  }

  // ---------------------------------------------------------------- a connection is part of a run

  /** The events of a run in which this connection's dispatched packets interleave with those of others. */
  function Trace(remote: Bytes, env: Env, between: nat -> seq<Event>, k: nat, xs: seq<Exchange>): seq<Event>
    decreases |xs|
  {
    if xs == [] || !xs[0].dispatched then []
    else
      between(k) + [Arrive(xs[0].request, remote, env.handler(k), env.times(k))] + Trace(remote, env, between, k + 1, xs[1..])
  }

  lemma {:induction false} PlayAppend(w: World, ttl: int, es: seq<Event>, fs: seq<Event>)
    ensures Play(w, ttl, es + fs) == Play(Play(w, ttl, es), ttl, fs)
    decreases |fs|
  {
    if fs == [] {
      assert es + fs == es;
    } else {
      assert (es + fs)[..|es + fs| - 1] == es + fs[..|fs| - 1];
      PlayAppend(w, ttl, es, fs[..|fs| - 1]);
    }
  }

  /** The table depends on nothing but the table, and calls are only ever added. */
  lemma {:induction false} HistoryIsKept(t: Table, before: seq<Call>, ttl: int, es: seq<Event>)
    ensures var w, v := Play(World(t, before), ttl, es), Play(World(t, []), ttl, es);
            w.table == v.table && before <= w.calls
  {
    if es != [] {
      hide Step;
      HistoryIsKept(t, before, ttl, es[..|es| - 1]);
    }
  }

  lemma TurnIsAStep(allow: bool, key: Key, remote: Bytes, env: Env, k: nat, connFlags: Option<byte>, t: Table, input: Bytes)
    ensures var turn := TakeTurn(allow, key, remote, env, k, connFlags, t, input);
            turn.Dispatched? ==>
              var o := Step(env.others(k, t), turn.x.request, remote, env.handler(k), env.times(k));
              turn.table == o.table && turn.call == o.call
  {
  }

  /** The calls made around one packet of the connection: those of others before it, and its own. */
  datatype Share = Share(theirs: seq<Call>, ours: seq<Call>)

  function Since(before: World, after: World): seq<Call> {
    if |before.calls| <= |after.calls| then after.calls[|before.calls|..] else []
  }

  /** How the calls of the run divide between the connection's own events and those of others. */
  function Shares(remote: Bytes, env: Env, between: nat -> seq<Event>, ttl: int, k: nat, xs: seq<Exchange>, w: World): seq<Share>
    decreases |xs|
  {
    if xs == [] || !xs[0].dispatched then []
    else
      var w1 := Play(w, ttl, between(k));
      var w2 := Next(w1, ttl, Arrive(xs[0].request, remote, env.handler(k), env.times(k)));
      [Share(Since(w, w1), Since(w1, w2))] + Shares(remote, env, between, ttl, k + 1, xs[1..], w2)
  }

  function AllCalls(shares: seq<Share>): seq<Call> {
    if shares == [] then [] else shares[0].theirs + shares[0].ours + AllCalls(shares[1..])
  }

  function OurCalls(shares: seq<Share>): seq<Call> {
    if shares == [] then [] else shares[0].ours + OurCalls(shares[1..])
  }

  /** The others act by handling packets and sweeping. */
  ghost predicate ActsBy(env: Env, between: nat -> seq<Event>, ttl: int) {
    forall j: nat, u: Table :: env.others(j, u) == Play(World(u, []), ttl, between(j)).table
  }

  /** One packet of the connection, with the events of others before it. */
  lemma TurnInARun(allow: bool, key: Key, remote: Bytes, env: Env, between: nat -> seq<Event>, ttl: int,
                   k: nat, connFlags: Option<byte>, w: World, input: Bytes)
    requires ActsBy(env, between, ttl)
    ensures var turn := TakeTurn(allow, key, remote, env, k, connFlags, w.table, input);
            turn.Dispatched? ==>
              var w1 := Play(w, ttl, between(k));
              var w2 := Next(w1, ttl, Arrive(turn.x.request, remote, env.handler(k), env.times(k)));
              && w2.table == turn.table
              && w1.calls == w.calls + Since(w, w1) && w2.calls == w1.calls + Since(w1, w2) && Since(w1, w2) == Made(turn.call)
  {
    hide TakeTurn, Step, Play;
    TurnIsAStep(allow, key, remote, env, k, connFlags, w.table, input);
    HistoryIsKept(w.table, w.calls, ttl, between(k));
  }

  lemma TraceStep(remote: Bytes, env: Env, between: nat -> seq<Event>, ttl: int, k: nat, x: Exchange, xs: seq<Exchange>, w: World)
    requires x.dispatched
    ensures var e := Arrive(x.request, remote, env.handler(k), env.times(k));
            var w1 := Play(w, ttl, between(k));
            var w2 := Next(w1, ttl, e);
            && Play(w, ttl, Trace(remote, env, between, k, [x] + xs)) == Play(w2, ttl, Trace(remote, env, between, k + 1, xs))
            && Shares(remote, env, between, ttl, k, [x] + xs, w)
               == [Share(Since(w, w1), Since(w1, w2))] + Shares(remote, env, between, ttl, k + 1, xs, w2)
  {
    hide Next, Since;
    var e := Arrive(x.request, remote, env.handler(k), env.times(k));
    var tail := Trace(remote, env, between, k + 1, xs);
    assert ([x] + xs)[1..] == xs;
    PlayAppend(w, ttl, between(k) + [e], tail);
    assert (between(k) + [e])[..|between(k)|] == between(k);
  }

  lemma TraceEnd(remote: Bytes, env: Env, between: nat -> seq<Event>, ttl: int, k: nat, xs: seq<Exchange>, w: World)
    requires xs == [] || !xs[0].dispatched
    ensures Play(w, ttl, Trace(remote, env, between, k, xs)) == w && Shares(remote, env, between, ttl, k, xs, w) == []
  {
  }

  lemma ShareStep(share: Share, shares: seq<Share>)
    ensures AllCalls([share] + shares) == share.theirs + share.ours + AllCalls(shares)
    ensures OurCalls([share] + shares) == share.ours + OurCalls(shares)
    ensures AllCalls([]) == [] && OurCalls([]) == []
  {
    assert ([share] + shares)[1..] == shares;
  }

  /** Whatever packets others have handled and whatever sweeps happen in between, a connection is part of
      one run: it leaves the table of that run, and its calls are those the run makes at its own events. */
  lemma {:induction false} ConnectionIsARun(allow: bool, key: Key, remote: Bytes, env: Env, between: nat -> seq<Event>, ttl: int,
                                            k: nat, connFlags: Option<byte>, w: World, input: Bytes)
    requires ActsBy(env, between, ttl)
    ensures var s := Serve(allow, key, remote, env, k, connFlags, w.table, input);
            var run := Play(w, ttl, Trace(remote, env, between, k, s.exchanges));
            var shares := Shares(remote, env, between, ttl, k, s.exchanges, w);
            && run.table == s.table
            && run.calls == w.calls + AllCalls(shares)
            && s.calls == OurCalls(shares)
    decreases |input|
  {
    hide TakeTurn, Trace, Play, Next, Shares, AllCalls, OurCalls, Since, ActsBy;
    var turn := TakeTurn(allow, key, remote, env, k, connFlags, w.table, input);
    TurnChecksFlags(allow, key, remote, env, k, connFlags, w.table, input);
    if turn.Dispatched? {
      var w1 := Play(w, ttl, between(k));
      var w2 := Next(w1, ttl, Arrive(turn.x.request, remote, env.handler(k), env.times(k)));
      TurnInARun(allow, key, remote, env, between, ttl, k, connFlags, w, input);
      ConnectionIsARun(allow, key, remote, env, between, ttl, k + 1, Some(turn.x.request.hdr.flags), w2, turn.rest);
      var tail := Serve(allow, key, remote, env, k + 1, Some(turn.x.request.hdr.flags), turn.table, turn.rest);
      var rest := Shares(remote, env, between, ttl, k + 1, tail.exchanges, w2);
      TraceStep(remote, env, between, ttl, k, turn.x, tail.exchanges, w);
      ShareStep(Share(Since(w, w1), Since(w1, w2)), rest);
      assert w.calls + Since(w, w1) + Since(w1, w2) + AllCalls(rest) == w.calls + (Since(w, w1) + Since(w1, w2) + AllCalls(rest));
    } else {
      TraceEnd(remote, env, between, ttl, k, turn.refused, w);
      ShareStep(Share([], []), []);
      assert w.calls + [] == w.calls;
    }
  }

  /** So the handler hears of each session id in order, over all connections together: a START, then the
      CONTINUEs of that START with consecutive odd numbers. */
  lemma ConnectionInOrder(allow: bool, key: Key, remote: Bytes, env: Env, between: nat -> seq<Event>, ttl: int, input: Bytes, id: uint32)
    requires ActsBy(env, between, ttl)
    ensures var s := Serve(allow, key, remote, env, 0, None, map[], input);
            var shares := Shares(remote, env, between, ttl, 0, s.exchanges, EMPTY);
            InOrder(CallsOf(AllCalls(shares), id)) && s.calls == OurCalls(shares)
  {
    hide Serve, InOrder, CallsOf, Play, Shares, AllCalls, OurCalls, ActsBy;
    var s := Serve(allow, key, remote, env, 0, None, map[], input);
    var calls := AllCalls(Shares(remote, env, between, ttl, 0, s.exchanges, EMPTY));
    ConnectionIsARun(allow, key, remote, env, between, ttl, 0, None, EMPTY, input);
    RunsStayConsistent(ttl, Trace(remote, env, between, 0, s.exchanges), id);
    assert [] + calls == calls;
  }

  /** Nobody else acts. */
  function Quiet(k: nat): seq<Event> {
    []
  }

  lemma {:induction false} QuietShares(remote: Bytes, env: Env, ttl: int, k: nat, xs: seq<Exchange>, w: World)
    ensures var shares := Shares(remote, env, Quiet, ttl, k, xs, w); AllCalls(shares) == OurCalls(shares)
    decreases |xs|
  {
    if xs != [] && xs[0].dispatched {
      hide Next;
      var w2 := Next(w, ttl, Arrive(xs[0].request, remote, env.handler(k), env.times(k)));
      assert Play(w, ttl, Quiet(k)) == w;
      QuietShares(remote, env, ttl, k + 1, xs[1..], w2);
      ShareStep(Share(Since(w, w), Since(w, w2)), Shares(remote, env, Quiet, ttl, k + 1, xs[1..], w2));
    }
  }

  /** A connection with the server to itself makes exactly the calls of its run. */
  lemma LoneConnectionIsARun(allow: bool, key: Key, remote: Bytes, env: Env, ttl: int, k: nat, connFlags: Option<byte>, w: World, input: Bytes)
    requires forall j: nat, u: Table :: env.others(j, u) == u
    ensures var s := Serve(allow, key, remote, env, k, connFlags, w.table, input);
            Play(w, ttl, Trace(remote, env, Quiet, k, s.exchanges)) == World(s.table, w.calls + s.calls)
  {
    hide Serve, Trace, Shares, AllCalls, OurCalls;
    ConnectionIsARun(allow, key, remote, env, Quiet, ttl, k, connFlags, w, input);
    QuietShares(remote, env, ttl, k, Serve(allow, key, remote, env, k, connFlags, w.table, input).exchanges, w);
  }

  /** On a server nobody else uses, the connection's own calls are in order. */
  lemma LoneConnectionInOrder(allow: bool, key: Key, remote: Bytes, env: Env, input: Bytes, id: uint32)
    requires forall j: nat, u: Table :: env.others(j, u) == u
    ensures InOrder(CallsOf(Serve(allow, key, remote, env, 0, None, map[], input).calls, id))
  {
    hide Serve, InOrder, CallsOf, Shares, AllCalls, OurCalls;
    ConnectionInOrder(allow, key, remote, env, Quiet, 0, input, id);
    QuietShares(remote, env, 0, 0, Serve(allow, key, remote, env, 0, None, map[], input).exchanges, EMPTY);
  }

  // ---------------------------------------------------------------- the loop

  lemma RepliesAppend(key: Key, xs: seq<Exchange>, x: Exchange)
    ensures FrameAll(key, Replies(xs + [x])) == FrameAll(key, Replies(xs)) + Written(key, x)
  {
    hide Frame;
    var p := ReplyPacket(x.request.hdr, x.reply);
    assert Replies(xs + [x]) == Replies(xs) + [p];
    FrameAllAppend(key, Replies(xs), [p]);
    assert FrameAll(key, [p]) == Frame(key, p.hdr, p.body) + FrameAll(key, [p][1..]);
    assert [p][1..] == [] && FrameAll(key, []) == [];
  }

  lemma PrependNothing(s: Served)
    ensures Prepend([], [], s) == s
  {
  }

  /** What an iteration does to the account of the whole connection. */
  lemma OneMoreTurn(allow: bool, key: Key, remote: Bytes, env: Env, k: nat, connFlags: Option<byte>, t: Table, input: Bytes,
                    xs: seq<Exchange>, calls: seq<Call>)
    ensures var whole := Prepend(xs, calls, Serve(allow, key, remote, env, k, connFlags, t, input));
            match TakeTurn(allow, key, remote, env, k, connFlags, t, input)
            case Ended(refused, stop, rest) => whole == Served(t, xs + refused, calls, stop, rest)
            case Dispatched(x, call, t', rest) =>
              whole == Prepend(xs + [x], calls + Made(call),
                               Serve(allow, key, remote, env, k + 1, Some(x.request.hdr.flags), t', rest))
  {
    hide TakeTurn;
    var turn := TakeTurn(allow, key, remote, env, k, connFlags, t, input);
    assert calls + [] == calls;
    if turn.Dispatched? {
      var s := Serve(allow, key, remote, env, k + 1, Some(turn.x.request.hdr.flags), turn.table, turn.rest);
      assert xs + ([turn.x] + s.exchanges) == xs + [turn.x] + s.exchanges;
      assert calls + (Made(turn.call) + s.calls) == calls + Made(turn.call) + s.calls;
    }
  }

  /** Reads one packet, checks it and has it handled. */
  method ServeNext(srv: Server, c: Conn, env: Env, k: nat, connFlags: Option<byte>) returns (stop: Option<Stop>, flags: byte)
    modifies srv.sessions, c, srv`calls
    ensures match TakeTurn(srv.allowUnencrypted, c.key, c.remote, env, k, connFlags, old(srv.sessions.sessions), old(c.input))
            case Ended(xs, s, rest) =>
              && stop == Some(s) && c.input == rest && |xs| <= 1
              && srv.sessions.sessions == old(srv.sessions.sessions) && srv.calls == old(srv.calls)
              && c.output == old(c.output) + if xs == [] then [] else Written(c.key, xs[0])
            case Dispatched(x, call, t', rest) =>
              && stop == None && flags == x.request.hdr.flags && c.input == rest
              && srv.sessions.sessions == t' && srv.Recorded(old(srv.calls), call)
              && c.output == old(c.output) + Written(c.key, x)
    ensures srv.sessions.Drift() == old(srv.sessions.Drift())
  {
    hide Step, ReadFrame, Frame;
    flags := 0;
    if env.cancelled(k) {
      return Some(Cancelled), flags;
    }
    var r := c.ReadPacket();
    if r.Err? {
      return Some(ReadFailed(r.error)), flags;
    }
    var p := r.value;
    flags := p.hdr.flags;
    var refused := CheckFlags(c.key.mode, srv.allowUnencrypted, p.hdr.flags);
    if refused.Some? {
      srv.SendGenericError(c, p.hdr);
      return Some(FlagRefused(refused.value)), flags;
    }
    if connFlags.Some? && p.hdr.flags != connFlags.value {
      srv.SendGenericError(c, p.hdr);
      return Some(FlagsChanged), flags;
    }
    // The other connections take their turns; each of their operations moves the gauge with the entries.
    var before := |srv.sessions.sessions.Keys|;
    srv.sessions.sessions := env.others(k, srv.sessions.sessions);
    srv.sessions.active := srv.sessions.active + |srv.sessions.sessions.Keys| - before;
    srv.Handle(c, p, env.handler(k), env.times(k));
    stop := None;
  }

  function Written(key: Key, x: Exchange): Bytes {
    Frame(key, ReplyHeader(x.request.hdr), ReplyPacket(x.request.hdr, x.reply).body)
  }

  method ServeConn(srv: Server, c: Conn, env: Env) returns (stop: Stop)
    modifies srv.sessions, c, srv`calls
    ensures var s := Serve(srv.allowUnencrypted, c.key, c.remote, env, 0, None, old(srv.sessions.sessions), old(c.input));
            && stop == s.stop
            && srv.sessions.sessions == s.table
            && srv.calls == old(srv.calls) + s.calls
            && c.output == old(c.output) + FrameAll(c.key, Replies(s.exchanges))
            && c.input == s.rest
    ensures srv.sessions.Drift() == old(srv.sessions.Drift())
  {
    hide TakeTurn, FrameAll, Replies, Written, Serve, Prepend;
    ghost var allow := srv.allowUnencrypted;
    ghost var whole := Serve(allow, c.key, c.remote, env, 0, None, srv.sessions.sessions, c.input);
    ghost var xs: seq<Exchange> := [];
    ghost var cs: seq<Call> := [];
    var connFlags: Option<byte> := None;
    var k := 0;
    NoReplies(c.key);
    PrependNothing(whole);
    while true
      invariant whole == Prepend(xs, cs, Serve(allow, c.key, c.remote, env, k, connFlags, srv.sessions.sessions, c.input))
      invariant srv.calls == old(srv.calls) + cs
      invariant c.output == old(c.output) + FrameAll(c.key, Replies(xs))
      invariant srv.sessions.Drift() == old(srv.sessions.Drift())
      decreases |c.input|
    {
      ghost var turn := TakeTurn(allow, c.key, c.remote, env, k, connFlags, srv.sessions.sessions, c.input);
      TurnChecksFlags(allow, c.key, c.remote, env, k, connFlags, srv.sessions.sessions, c.input);
      OneMoreTurn(allow, c.key, c.remote, env, k, connFlags, srv.sessions.sessions, c.input, xs, cs);
      var s, flags := ServeNext(srv, c, env, k, connFlags);
      if s.Some? {
        assert xs + [] == xs;
        if turn.refused != [] {
          RepliesAppend(c.key, xs, turn.refused[0]);
          assert turn.refused == [turn.refused[0]];
        }
        return s.value;
      }
      if connFlags.None? {
        connFlags := Some(flags);
      }
      assert connFlags == Some(turn.x.request.hdr.flags);
      RepliesAppend(c.key, xs, turn.x);
      xs, cs := xs + [turn.x], cs + Made(turn.call);
      k := k + 1;
    }
  }

  lemma NoReplies(key: Key)
    ensures FrameAll(key, Replies([])) == []
  {
  }
}
