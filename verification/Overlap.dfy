/**
  Authentication packets that overlap (server/server.go, handleAuthen).

  The table is locked while a session is looked up and again while its answer is recorded, but not while
  the handler works. A connection handles its packets one after the other; two connections may deliver
  packets of one session at the same time. Here a packet takes two steps, before and after the handler.
*/
module Overlap {
  import opened Base
  import opened Bodies
  import opened Framing
  import opened Sessions
  import opened Server
  import opened SessionSafety

  /** A packet whose handler is at work. */
  datatype Pending = Pending(hdr: Header, start: AuthenStart, cont: Option<AuthenContinue>, remote: Bytes, h: Handler)

  function ContextOf(q: Pending): AuthenContext {
    AuthenContext(q.hdr.sessionId, q.hdr.seqNo, q.start, q.remote)
  }

  function CallOf(q: Pending): Call {
    AuthenCall(ContextOf(q), q.cont)
  }

  datatype Half = Half(table: Table, asked: Option<Pending>)

  /** Up to the handler: a START is registered, a CONTINUE is checked against the stored session. */
  function FirstHalf(t: Table, p: Packet, remote: Bytes, h: Handler, arrived: int): Half {
    var hdr, id := p.hdr, p.hdr.sessionId;
    if hdr.ptype != AUTHENTICATION then Half(t, None)
    else if hdr.seqNo == 1 then
      match AuthenStartParse(p.body)
      case Err(_) => Half(t, None)
      case Ok(start) => Half(Registered(t, id, NewSession(hdr, start, remote), arrived), Some(Pending(hdr, start, None, remote, h)))
    else if id !in t then Half(t, None)
    else if !ValidNextSeqNo(hdr.seqNo, t[id].lastOutboundSeq) then Half(t - {id}, None)
    else
      match AuthenContinueParse(p.body)
      case Err(_) => Half(t, None)
      case Ok(c) => Half(t, Some(Pending(hdr, t[id].start, Some(c), remote, h)))
  }

  /** From the handler's answer on. */
  function SecondHalf(t: Table, q: Pending, answered: int): Table {
    AfterAnswer(t, q.hdr, q.h.authen(ContextOf(q), q.cont), Times(answered, answered))
  }

  /** With nothing in between, the two halves are the step of a packet. */
  lemma StepIsBothHalves(t: Table, p: Packet, remote: Bytes, h: Handler, at: Times)
    requires p.hdr.ptype == AUTHENTICATION
    ensures var f, o := FirstHalf(t, p, remote, h, at.arrived), Step(t, p, remote, h, at);
            match f.asked
            case None => o.call == None && o.table == f.table
            case Some(q) => o.call == Some(CallOf(q)) && o.table == SecondHalf(f.table, q, at.answered)
  {
    hide AuthenStartParse, AuthenContinueParse, AuthenReplyTo;
  }

  // ---------------------------------------------------------------- runs

  datatype State = State(table: Table, pending: map<nat, Pending>, calls: seq<Call>)

  const START := State(map[], map[], [])

  /** A ticket names a packet from its first half to its second. */
  datatype Event =
    | Begin(ticket: nat, p: Packet, remote: Bytes, h: Handler, arrived: int)
    | Finish(ticket: nat, answered: int)
    | Sweep(now: int)

  function Next(s: State, ttl: int, e: Event): State {
    match e
    case Begin(ticket, p, remote, h, arrived) =>
      if ticket in s.pending then s
      else
        var f := FirstHalf(s.table, p, remote, h, arrived);
        (match f.asked
         case None => s.(table := f.table)
         case Some(q) => State(f.table, s.pending[ticket := q], s.calls + [CallOf(q)]))
    case Finish(ticket, answered) =>
      if ticket !in s.pending then s
      else State(SecondHalf(s.table, s.pending[ticket], answered), s.pending - {ticket}, s.calls)
    case Sweep(now) => s.(table := Swept(s.table, ttl, now))
  }

  function Play(s: State, ttl: int, es: seq<Event>): State {
    if es == [] then s else Next(Play(s, ttl, es[..|es| - 1]), ttl, es[|es| - 1])
  }

  predicate IsFor(p: Packet, id: uint32) {
    p.hdr.ptype == AUTHENTICATION && p.hdr.sessionId == id
  }

  predicate NonePending(s: State, id: uint32) {
    forall k | k in s.pending :: s.pending[k].hdr.sessionId != id
  }

  // ---------------------------------------------------------------- one packet of a session at a time

  /** A packet of the session begins only while no other is with the handler. */
  predicate Orderly(s: State, ttl: int, es: seq<Event>, id: uint32) {
    es == [] ||
      var front, last := es[..|es| - 1], es[|es| - 1];
      && Orderly(s, ttl, front, id)
      && (last.Begin? && IsFor(last.p, id) ==> NonePending(Play(s, ttl, front), id))
  }

  /** Calls are in order; a pending packet is the last call, and the session, if still stored, has its
      START; with none pending a stored session remembers the last call. */
  predicate Sound(s: State, id: uint32) {
    var cs := CallsOf(s.calls, id);
    && InOrder(cs)
    && (forall j, k | j in s.pending && k in s.pending && s.pending[j].hdr.sessionId == s.pending[k].hdr.sessionId == id :: j == k)
    && (forall k | k in s.pending && s.pending[k].hdr.sessionId == id :: Working(s, k, id))
    && (NonePending(s, id) && id in s.table ==> Remembers(s.table[id], cs))
  }

  predicate Working(s: State, k: nat, id: uint32)
    requires k in s.pending
  {
    var cs, q := CallsOf(s.calls, id), s.pending[k];
    && cs != [] && cs[|cs| - 1] == CallOf(q) && q.hdr.seqNo % 2 == 1
    && (id in s.table ==> s.table[id].start == q.start)
  }

  /** What a packet that begins leaves behind. */
  lemma BeginFacts(t: Table, p: Packet, remote: Bytes, h: Handler, arrived: int, id: uint32)
    ensures var f := FirstHalf(t, p, remote, h, arrived);
            && (!IsFor(p, id) ==> (id in f.table <==> id in t) && (id in t ==> f.table[id] == t[id]) && (f.asked.Some? ==> f.asked.value.hdr.sessionId != id))
            && (IsFor(p, id) && f.asked.None? ==> id in f.table ==> id in t && f.table[id] == t[id])
            && (IsFor(p, id) && f.asked.Some? ==>
                  var q := f.asked.value;
                  && q.hdr == p.hdr && id in f.table && f.table[id].start == q.start
                  && (p.hdr.seqNo == 1 ==> q.cont == None)
                  && (p.hdr.seqNo != 1 ==>
                        && q.cont.Some? && id in t && q.start == t[id].start && f.table == t
                        && t[id].lastOutboundSeq != 0 && p.hdr.seqNo == Succ8(t[id].lastOutboundSeq)))
  {
    hide AuthenStartParse, AuthenContinueParse;
  }

  /** A CONTINUE is put to the handler exactly when the stored session awaits its number and it decodes. */
  lemma BeginAsksIff(t: Table, p: Packet, remote: Bytes, h: Handler, arrived: int)
    requires p.hdr.ptype == AUTHENTICATION && p.hdr.seqNo != 1
    ensures var id := p.hdr.sessionId;
            FirstHalf(t, p, remote, h, arrived).asked.Some? <==>
              && id in t && t[id].lastOutboundSeq != 0 && p.hdr.seqNo == Succ8(t[id].lastOutboundSeq)
              && AuthenContinueParse(p.body).Ok?
  {
  }

  /** What recording an answer leaves behind. */
  lemma FinishFacts(t: Table, q: Pending, answered: int, id: uint32)
    ensures var t' := SecondHalf(t, q, answered);
            && (q.hdr.sessionId != id ==> (id in t' <==> id in t) && (id in t ==> t'[id] == t[id]))
            && (q.hdr.sessionId == id && id in t' ==>
                  id in t && t'[id].start == t[id].start && t'[id].lastOutboundSeq == Succ8(q.hdr.seqNo))
  {
  }

  lemma BeginKeeps(s: State, ttl: int, e: Event, id: uint32)
    requires Sound(s, id) && e.Begin? && e.ticket !in s.pending
    requires IsFor(e.p, id) ==> NonePending(s, id)
    ensures Sound(Next(s, ttl, e), id)
  {
    hide InOrder, CallsOf, FirstHalf;
    var f := FirstHalf(s.table, e.p, e.remote, e.h, e.arrived);
    BeginFacts(s.table, e.p, e.remote, e.h, e.arrived, id);
    if f.asked.Some? {
      var c, cs := CallOf(f.asked.value), CallsOf(s.calls, id);
      CallsOfAppend(s.calls, c, id);
      if IsFor(e.p, id) {
        if e.p.hdr.seqNo != 1 {
          NextOdd(cs[|cs| - 1].authen.seqNo, s.table[id].lastOutboundSeq, e.p.hdr.seqNo);
          assert Follows(cs[|cs| - 1], c);
        }
        ExtendInOrder(cs, c);
        var s' := Next(s, ttl, e);
        assert s'.pending[e.ticket].hdr.sessionId == id;
        assert Working(s', e.ticket, id);
      } else {
        OtherPending(s, Next(s, ttl, e), e.ticket, id);
      }
    }
  }

  /** A pending packet of another session makes no difference. */
  lemma OtherPending(s: State, s': State, ticket: nat, id: uint32)
    requires ticket !in s.pending && ticket in s'.pending && s'.pending == s.pending[ticket := s'.pending[ticket]]
    requires s'.pending[ticket].hdr.sessionId != id
    ensures NonePending(s, id) <==> NonePending(s', id)
  {
    assert forall k | k in s.pending :: s'.pending[k] == s.pending[k];
  }

  lemma FinishKeeps(s: State, ttl: int, e: Event, id: uint32)
    requires Sound(s, id) && e.Finish? && e.ticket in s.pending
    ensures Sound(Next(s, ttl, e), id)
  {
    hide InOrder, CallsOf, SecondHalf;
    var k, s' := e.ticket, Next(s, ttl, e);
    FinishFacts(s.table, s.pending[k], e.answered, id);
    if s.pending[k].hdr.sessionId == id {
      assert Working(s, k, id);
      assert NonePending(s', id);
    } else {
      assert s.pending == s'.pending[k := s.pending[k]];
      OtherPending(s', s, k, id);
    }
  }

  /** Sessions whose packets come one at a time, on one connection or on several, keep their order
      however the packets of other sessions overlap. */
  lemma {:induction false} OrderlyInOrder(ttl: int, es: seq<Event>, id: uint32)
    requires Orderly(START, ttl, es, id)
    ensures Sound(Play(START, ttl, es), id)
  {
    hide InOrder, FirstHalf, SecondHalf;
    if es != [] {
      var front, e := es[..|es| - 1], es[|es| - 1];
      var s := Play(START, ttl, front);
      OrderlyInOrder(ttl, front, id);
      match e
      case Begin(ticket, _, _, _, _) =>
        if ticket !in s.pending {
          BeginKeeps(s, ttl, e, id);
        }
      case Finish(ticket, _) =>
        if ticket in s.pending {
          FinishKeeps(s, ttl, e, id);
        }
      case Sweep(_) =>
        SweepKeeps(s, ttl, e, id);
    } else {
      NothingYet(id);
    }
  }

  lemma SweepKeeps(s: State, ttl: int, e: Event, id: uint32)
    requires Sound(s, id) && e.Sweep?
    ensures Sound(Next(s, ttl, e), id)
  {
    hide InOrder, CallsOf;
  }

  lemma NothingYet(id: uint32)
    ensures Sound(START, id)
  {
  }

  // ---------------------------------------------------------------- two packets with the same number

  /** An event that is not about the session or the packet under this ticket; sweeps are. */
  predicate Aside(e: Event, ticket: nat, id: uint32) {
    match e
    case Begin(k, p, _, _, _) => k != ticket && !IsFor(p, id)
    case Finish(k, _) => k != ticket
    case Sweep(_) => true
  }

  predicate AllAside(es: seq<Event>, ticket: nat, id: uint32) {
    forall i | 0 <= i < |es| :: Aside(es[i], ticket, id)
  }

  /** No sweep comes more than the TTL after the session was last active. */
  predicate InTime(es: seq<Event>, ttl: int, active: int) {
    forall i | 0 <= i < |es| :: es[i].Sweep? ==> es[i].now - active <= ttl
  }

  /** No packet of the session is pending but perhaps the one under this ticket. */
  predicate OnlyPending(s: State, ticket: nat, id: uint32) {
    forall k | k in s.pending && k != ticket :: s.pending[k].hdr.sessionId != id
  }

  /** Events aside keep other packets of the session from being pending, and touch its entry only by
      sweeping it away. */
  lemma AsideStep(s: State, ttl: int, e: Event, ticket: nat, id: uint32)
    requires Aside(e, ticket, id) && OnlyPending(s, ticket, id)
    ensures var s' := Next(s, ttl, e);
            && OnlyPending(s', ticket, id)
            && (ticket in s'.pending <==> ticket in s.pending) && (ticket in s.pending ==> s'.pending[ticket] == s.pending[ticket])
            && (id in s'.table ==> id in s.table && s'.table[id] == s.table[id])
            && (id in s.table && (e.Sweep? ==> e.now - s.table[id].lastActive <= ttl) ==> id in s'.table)
  {
    hide FirstHalf, SecondHalf;
    match e
    case Begin(k, p, remote, h, arrived) =>
      BeginFacts(s.table, p, remote, h, arrived, id);
    case Finish(k, answered) =>
      if k in s.pending {
        FinishFacts(s.table, s.pending[k], answered, id);
      }
    case Sweep(_) =>
  }

  lemma {:induction false} AsideRun(s: State, ttl: int, es: seq<Event>, ticket: nat, id: uint32)
    requires AllAside(es, ticket, id) && OnlyPending(s, ticket, id)
    ensures var s' := Play(s, ttl, es);
            && OnlyPending(s', ticket, id)
            && (ticket in s'.pending <==> ticket in s.pending) && (ticket in s.pending ==> s'.pending[ticket] == s.pending[ticket])
            && (id in s'.table ==> id in s.table && s'.table[id] == s.table[id])
            && (id in s.table && InTime(es, ttl, s.table[id].lastActive) ==> id in s'.table)
  {
    hide Next;
    if es != [] {
      var front, e := es[..|es| - 1], es[|es| - 1];
      AsideRun(s, ttl, front, ticket, id);
      assert Aside(e, ticket, id);
      AsideStep(Play(s, ttl, front), ttl, e, ticket, id);
    }
  }

  /** The state in which a second packet arrives, with or without the answer to the first recorded. */
  function Meanwhile(s: State, ttl: int, first: Event, es: seq<Event>, answered: Option<int>, fs: seq<Event>): State
    requires first.Begin?
  {
    var s1 := Play(Next(s, ttl, first), ttl, es);
    Play(if answered.Some? then Next(s1, ttl, Finish(first.ticket, answered.value)) else s1, ttl, fs)
  }

  /** When two CONTINUEs of a session carry the same awaited number and nothing else happens to the
      session, the handler is asked about the second exactly when the answer to the first has not been
      recorded yet. */
  lemma AskedTwiceIff(s: State, ttl: int, first: Event, es: seq<Event>, answered: Option<int>, fs: seq<Event>, second: Event, id: uint32)
    requires first.Begin? && IsFor(first.p, id) && first.p.hdr.seqNo != 1 && first.ticket !in s.pending && NonePending(s, id)
    requires FirstHalf(s.table, first.p, first.remote, first.h, first.arrived).asked.Some? && id in s.table
    requires second.Begin? && IsFor(second.p, id) && second.p.hdr.seqNo == first.p.hdr.seqNo && AuthenContinueParse(second.p.body).Ok?
    requires AllAside(es, first.ticket, id) && AllAside(fs, first.ticket, id)
    requires InTime(es, ttl, s.table[id].lastActive) && (answered.None? ==> InTime(fs, ttl, s.table[id].lastActive))
    ensures FirstHalf(Meanwhile(s, ttl, first, es, answered, fs).table, second.p, second.remote, second.h, second.arrived).asked.Some?
            <==> answered.None?
  {
    hide FirstHalf, SecondHalf, Play, AllAside, InTime, AuthenContinueParse;
    var s1 := Next(s, ttl, first);
    BeginFacts(s.table, first.p, first.remote, first.h, first.arrived, id);
    AsideRun(s1, ttl, es, first.ticket, id);
    var s2 := Play(s1, ttl, es);
    var s3 := if answered.Some? then Next(s2, ttl, Finish(first.ticket, answered.value)) else s2;
    if answered.Some? {
      FinishFacts(s2.table, s2.pending[first.ticket], answered.value, id);
    }
    AsideRun(s3, ttl, fs, first.ticket, id);
    BeginAsksIff(Play(s3, ttl, fs).table, second.p, second.remote, second.h, second.arrived);
  }

  /** It does happen: two connections deliver number 3 of one login while the handler works. */
  lemma NumberThreeTwice(id: uint32, ttl: int) returns (es: seq<Event>)
    ensures var cs := CallsOf(Play(START, ttl, es).calls, id);
            |cs| == 3 && !InOrder(cs) && cs[1].AuthenCall? && cs[2].AuthenCall? && cs[1].authen.seqNo == cs[2].authen.seqNo == 3
  {
    hide FirstHalf, LoginPacket, CallsOf;
    var h, p, q := Insatiable(), LoginPacket(id, 0), LoginPacket(id, 1);
    var a, b := Begin(0, p, [], h, 0), Finish(0, 0);
    var c, d := Begin(1, q, [], h, 0), Begin(2, q, [], h, 0);
    var s1 := Next(START, ttl, a);
    var s2 := Next(s1, ttl, b);
    var s3 := Next(s2, ttl, c);
    var s4 := Next(s3, ttl, d);
    es := [a, b, c, d];
    FourEvents(START, ttl, a, b, c, d);
    StartBegins(id);
    assert s2.table[id].lastOutboundSeq == 2;
    ThirdBegins(s2.table, id);
    ThirdBegins(s3.table, id);
    NoCalls(id);
    CallsOfAppend([], s1.calls[0], id);
    assert [] + [s1.calls[0]] == s1.calls;
    CallsOfAppend(s2.calls, s3.calls[1], id);
    CallsOfAppend(s3.calls, s4.calls[2], id);
    var cs := CallsOf(s4.calls, id);
    assert !IsStart(cs[2]) && !Follows(cs[1], cs[2]);
  }

  lemma FourEvents(s: State, ttl: int, a: Event, b: Event, c: Event, d: Event)
    ensures Play(s, ttl, [a, b, c, d]) == Next(Next(Next(Next(s, ttl, a), ttl, b), ttl, c), ttl, d)
  {
    hide Next;
    assert [a, b, c, d][..3] == [a, b, c] && [a, b, c][..2] == [a, b] && [a, b][..1] == [a] && [a][..0] == [];
    assert Play(s, ttl, [a]) == Next(Play(s, ttl, []), ttl, a);
    assert Play(s, ttl, [a, b]) == Next(Play(s, ttl, [a]), ttl, b);
    assert Play(s, ttl, [a, b, c]) == Next(Play(s, ttl, [a, b]), ttl, c);
  }

  lemma StartBegins(id: uint32)
    ensures var p, f := LoginPacket(id, 0), FirstHalf(map[], LoginPacket(id, 0), [], Insatiable(), 0);
            && p.hdr.sessionId == id && p.hdr.seqNo == 1
            && f.asked == Some(Pending(p.hdr, PLAIN_START, None, [], Insatiable())) && id in f.table
  {
    hide AuthenStartParse;
    LoginPacketDecodes(id, 0);
  }

  lemma ThirdBegins(t: Table, id: uint32)
    requires id in t && t[id].lastOutboundSeq == 2
    ensures var q, f := LoginPacket(id, 1), FirstHalf(t, LoginPacket(id, 1), [], Insatiable(), 0);
            && q.hdr.sessionId == id && q.hdr.seqNo == 3
            && f.table == t && f.asked.Some? && f.asked.value.hdr == q.hdr && f.asked.value.cont.Some?
  {
    hide AuthenContinueParse;
    LoginPacketDecodes(id, 1);
  }
}
