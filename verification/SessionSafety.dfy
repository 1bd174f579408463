/**
  What every run of the server keeps, when packets of any number of sessions and connections arrive in
  any order, each handled atomically, with sweeps in between (server/server.go, server/sessions.go).
*/
module SessionSafety {
  import opened Base
  import opened Bodies
  import opened Framing
  import opened Sessions
  import opened Server

  datatype Event =
    | Arrive(p: Packet, remote: Bytes, h: Handler, at: Times)
    | Tick(now: int)

  /** The shared table and every consultation of the handler so far. */
  datatype World = World(table: Table, calls: seq<Call>)

  const EMPTY := World(map[], [])

  function Next(w: World, ttl: int, e: Event): World {
    match e
    case Tick(now) => w.(table := Swept(w.table, ttl, now))
    case Arrive(p, remote, h, at) =>
      var o := Step(w.table, p, remote, h, at);
      World(o.table, w.calls + if o.call.Some? then [o.call.value] else [])
  }

  function Play(w: World, ttl: int, es: seq<Event>): World {
    if es == [] then w else Next(Play(w, ttl, es[..|es| - 1]), ttl, es[|es| - 1])
  }

  // ---------------------------------------------------------------- one step

  predicate IsAuthenFor(c: Call, id: uint32) {
    c.AuthenCall? && c.authen.sessionId == id
  }

  /** A CONTINUE reaches the handler exactly when its session is stored, has not been answered with
      sequence number 0, expects this number, and the body decodes. */
  lemma ContinueAcceptedIff(t: Table, p: Packet, remote: Bytes, h: Handler, at: Times)
    requires p.hdr.ptype == AUTHENTICATION && p.hdr.seqNo != 1
    ensures var id := p.hdr.sessionId;
            Step(t, p, remote, h, at).call.Some? <==>
            && id in t
            && t[id].lastOutboundSeq != 0
            && p.hdr.seqNo == Succ8(t[id].lastOutboundSeq)
            && AuthenContinueParse(p.body).Ok?
  {
  }

  /** What a consultation leaves behind: nothing when the answer ends the session, otherwise the
      session with its START, its time refreshed and the number just sent. */
  lemma AfterConsultation(t: Table, p: Packet, remote: Bytes, h: Handler, at: Times)
    requires p.hdr.ptype == AUTHENTICATION
    requires Step(t, p, remote, h, at).call.Some?
    ensures var o, id := Step(t, p, remote, h, at), p.hdr.sessionId;
            && o.call.value.AuthenCall?
            && o.call.value.authen.sessionId == id
            && o.call.value.authen.seqNo == p.hdr.seqNo
            && o.call.value.authen.remoteAddr == remote
            && var answer := h.authen(o.call.value.authen, o.call.value.cont);
               && (id in o.table <==> answer.Some? && answer.value.status !in {0x01, 0x02, 0x07})
               && (id in o.table ==>
                     && o.table[id].lastOutboundSeq == Succ8(p.hdr.seqNo) == (p.hdr.seqNo + 1) % 256
                     && o.table[id].start == o.call.value.authen.start
                     && o.table[id].lastActive == at.answered
                     && (p.hdr.seqNo == 1 ==>
                           o.table[id].flags == p.hdr.flags && o.table[id].remoteAddr == remote && o.table[id].createdAt == at.arrived)
                     && (p.hdr.seqNo != 1 ==>
                           id in t && o.table[id] == t[id].(lastActive := at.answered, lastOutboundSeq := o.table[id].lastOutboundSeq)))
  {
    hide AuthenStartParse, AuthenContinueParse, AuthenReplyTo;
  }

  /** The handler is asked about a START with that START, about a CONTINUE with the stored one. */
  lemma ConsultedWith(t: Table, p: Packet, remote: Bytes, h: Handler, at: Times)
    requires p.hdr.ptype == AUTHENTICATION
    requires Step(t, p, remote, h, at).call.Some?
    ensures var c := Step(t, p, remote, h, at).call.value;
            if p.hdr.seqNo == 1
            then AuthenStartParse(p.body) == Ok(c.authen.start) && c.cont == None
            else p.hdr.sessionId in t && c.authen.start == t[p.hdr.sessionId].start
                 && c.cont.Some? && AuthenContinueParse(p.body) == Ok(c.cont.value)
  {
  }

  /** A packet touches at most the entry of its own session, and only an authentication packet does. */
  lemma StepIsolated(t: Table, p: Packet, remote: Bytes, h: Handler, at: Times, id: uint32)
    requires id != p.hdr.sessionId || p.hdr.ptype != AUTHENTICATION
    ensures var o := Step(t, p, remote, h, at);
            && (id in o.table <==> id in t)
            && (id in t ==> o.table[id] == t[id])
            && (o.call.Some? ==> !IsAuthenFor(o.call.value, id))
  {
    hide AuthenStartParse, AuthenContinueParse, AuthenReplyTo, AuthorStep, AcctStep;
    if p.hdr.ptype == AUTHORIZATION {
      AuthorCallsOnly(p, remote, h);
    } else if p.hdr.ptype == ACCOUNTING {
      AcctCallsOnly(p, remote, h);
    }
  }

  lemma AuthorCallsOnly(p: Packet, remote: Bytes, h: Handler)
    ensures var c := AuthorStep(p.hdr, p.body, remote, h).call; c.Some? ==> c.value.AuthorCall?
  {
  }

  lemma AcctCallsOnly(p: Packet, remote: Bytes, h: Handler)
    ensures var c := AcctStep(p.hdr, p.body, remote, h).call; c.Some? ==> c.value.AcctCall?
  {
  }

  /** Without a consultation the table changes exactly when a stored session gets a wrong number, and
      then it loses that session. */
  lemma NoConsultation(t: Table, p: Packet, remote: Bytes, h: Handler, at: Times)
    requires Step(t, p, remote, h, at).call.None?
    ensures var id := p.hdr.sessionId;
            Step(t, p, remote, h, at).table
            == if p.hdr.ptype == AUTHENTICATION && p.hdr.seqNo != 1 && id in t && !ValidNextSeqNo(p.hdr.seqNo, t[id].lastOutboundSeq)
               then t - {id} else t
  {
  }

  /** A START that does not decode, or an awaited CONTINUE that does not, is answered with the generic
      error and changes nothing. */
  lemma UndecodableIsIgnored(t: Table, p: Packet, remote: Bytes, h: Handler, at: Times)
    requires p.hdr.ptype == AUTHENTICATION
    requires if p.hdr.seqNo == 1 then AuthenStartParse(p.body).Err?
             else p.hdr.sessionId in t && ValidNextSeqNo(p.hdr.seqNo, t[p.hdr.sessionId].lastOutboundSeq) && AuthenContinueParse(p.body).Err?
    ensures Step(t, p, remote, h, at) == Outcome(t, Generic, None)
  {
    hide AuthenStartParse, AuthenContinueParse, Decide;
  }

  // ---------------------------------------------------------------- the calls of one session

  function CallsOf(calls: seq<Call>, id: uint32): seq<Call> {
    if calls == [] then []
    else
      var last := calls[|calls| - 1];
      CallsOf(calls[..|calls| - 1], id) + if IsAuthenFor(last, id) then [last] else []
  }

  lemma CallsOfAppend(calls: seq<Call>, c: Call, id: uint32)
    ensures IsAuthenFor(c, id) ==> CallsOf(calls + [c], id) == CallsOf(calls, id) + [c]
    ensures !IsAuthenFor(c, id) ==> CallsOf(calls + [c], id) == CallsOf(calls, id)
  {
  }

  predicate Follows(prev: Call, next: Call) {
    && prev.AuthenCall? && next.AuthenCall?
    && next.authen.seqNo == prev.authen.seqNo as int + 2
    && next.authen.start == prev.authen.start
    && next.cont.Some?
  }

  predicate IsStart(c: Call) {
    c.AuthenCall? && c.authen.seqNo == 1 && c.cont == None
  }

  /** Each call is for a START or continues the call before it. */
  predicate InOrder(cs: seq<Call>) {
    forall i | 0 <= i < |cs| :: IsStart(cs[i]) || (i > 0 && Follows(cs[i - 1], cs[i]))
  }

  /** A stored session remembers the last consultation about it. */
  predicate Remembers(ctx: SessionContext, cs: seq<Call>) {
    && cs != []
    && var last := cs[|cs| - 1];
       && last.AuthenCall?
       && last.authen.seqNo % 2 == 1
       && ctx.lastOutboundSeq == Succ8(last.authen.seqNo)
       && ctx.start == last.authen.start
  }

  predicate Consistent(w: World, id: uint32) {
    && InOrder(CallsOf(w.calls, id))
    && (id in w.table ==> Remembers(w.table[id], CallsOf(w.calls, id)))
  }

  /** Two successors of an odd number, when the first is not 0, are the next odd number. */
  lemma NextOdd(prev: byte, sent: byte, seqNo: byte)
    requires prev % 2 == 1 && sent == Succ8(prev) && sent != 0 && seqNo == Succ8(sent)
    ensures seqNo == prev as int + 2 && seqNo % 2 == 1
  {
  }

  lemma ConsultationKeeps(w: World, ttl: int, e: Event, id: uint32)
    requires Consistent(w, id)
    requires e.Arrive? && e.p.hdr.ptype == AUTHENTICATION && e.p.hdr.sessionId == id
    requires Step(w.table, e.p, e.remote, e.h, e.at).call.Some?
    ensures Consistent(Next(w, ttl, e), id)
  {
    hide Step, InOrder, CallsOf, Succ8, AuthenStartParse, AuthenContinueParse;
    var c := Step(w.table, e.p, e.remote, e.h, e.at).call.value;
    var cs := CallsOf(w.calls, id);
    AfterConsultation(w.table, e.p, e.remote, e.h, e.at);
    ConsultedWith(w.table, e.p, e.remote, e.h, e.at);
    CallsOfAppend(w.calls, c, id);
    if e.p.hdr.seqNo != 1 {
      ContinueAcceptedIff(w.table, e.p, e.remote, e.h, e.at);
      NextOdd(cs[|cs| - 1].authen.seqNo, w.table[id].lastOutboundSeq, e.p.hdr.seqNo);
      assert Follows(cs[|cs| - 1], c);
    }
    ExtendInOrder(cs, c);
  }

  lemma ExtendInOrder(cs: seq<Call>, c: Call)
    requires InOrder(cs)
    requires IsStart(c) || (cs != [] && Follows(cs[|cs| - 1], c))
    ensures InOrder(cs + [c])
  {
  }

  lemma NextKeeps(w: World, ttl: int, e: Event, id: uint32)
    requires Consistent(w, id)
    ensures Consistent(Next(w, ttl, e), id)
  {
    hide Step, InOrder, Remembers;
    if e.Arrive? {
      var o := Step(w.table, e.p, e.remote, e.h, e.at);
      if e.p.hdr.ptype == AUTHENTICATION && e.p.hdr.sessionId == id {
        if o.call.Some? {
          ConsultationKeeps(w, ttl, e, id);
        } else {
          NoConsultation(w.table, e.p, e.remote, e.h, e.at);
          assert w.calls + [] == w.calls;
        }
      } else {
        StepIsolated(w.table, e.p, e.remote, e.h, e.at, id);
        if o.call.Some? {
          CallsOfAppend(w.calls, o.call.value, id);
        } else {
          assert w.calls + [] == w.calls;
        }
      }
    }
  }

  // ---------------------------------------------------------------- every run

  /** In every run the consultations about a session come in order and the stored state agrees
      with the last of them. */
  lemma {:induction false} RunsStayConsistent(ttl: int, es: seq<Event>, id: uint32)
    ensures Consistent(Play(EMPTY, ttl, es), id)
  {
    if es != [] {
      RunsStayConsistent(ttl, es[..|es| - 1], id);
      NextKeeps(Play(EMPTY, ttl, es[..|es| - 1]), ttl, es[|es| - 1], id);
    }
  }

  /** In every run every stored outbound number is even; 0 is stored only after answering 255. */
  lemma StoredNumbersAreEven(ttl: int, es: seq<Event>, id: uint32)
    requires id in Play(EMPTY, ttl, es).table
    ensures var w := Play(EMPTY, ttl, es);
            && w.table[id].lastOutboundSeq % 2 == 0
            && (w.table[id].lastOutboundSeq == 0 ==>
                  var cs := CallsOf(w.calls, id); cs != [] && IsAuthenFor(cs[|cs| - 1], id) && cs[|cs| - 1].authen.seqNo == 255)
  {
    hide Play, InOrder;
    RunsStayConsistent(ttl, es, id);
    var calls := Play(EMPTY, ttl, es).calls;
    CallsOfAre(calls, id);
  }

  lemma {:induction false} CallsOfAre(calls: seq<Call>, id: uint32)
    ensures forall i | 0 <= i < |CallsOf(calls, id)| :: IsAuthenFor(CallsOf(calls, id)[i], id)
  {
    if calls != [] {
      CallsOfAre(calls[..|calls| - 1], id);
    }
  }

  /** Between one START and the next the handler is asked about 1, 3, 5, ... in this order, always
      with the START that opened the session, and at most 128 times; after 255 comes only a START. */
  lemma {:induction false} ConsultationsOfOneLogin(cs: seq<Call>, first: nat, last: nat)
    requires InOrder(cs) && first <= last < |cs|
    requires IsStart(cs[first])
    requires forall i | first < i <= last :: !IsStart(cs[i])
    ensures cs[last].AuthenCall?
    ensures cs[last].authen.seqNo == 2 * (last - first) + 1
    ensures cs[last].authen.start == cs[first].authen.start
    ensures last - first < 128
    ensures cs[last].authen.seqNo == 255 && last + 1 < |cs| ==> IsStart(cs[last + 1])
    decreases last
  {
    if first < last {
      ConsultationsOfOneLogin(cs, first, last - 1);
      assert !IsStart(cs[last]);
      assert Follows(cs[last - 1], cs[last]);
    }
    if last + 1 < |cs| {
      assert IsStart(cs[last + 1]) || Follows(cs[last], cs[last + 1]);
    }
  }

  // ---------------------------------------------------------------- sessions do not interfere

  predicate Concerns(e: Event, id: uint32) {
    e.Tick? || (e.p.hdr.ptype == AUTHENTICATION && e.p.hdr.sessionId == id)
  }

  function Project(es: seq<Event>, id: uint32): seq<Event> {
    if es == [] then []
    else
      var last := es[|es| - 1];
      Project(es[..|es| - 1], id) + if Concerns(last, id) then [last] else []
  }

  predicate SameFor(w1: World, w2: World, id: uint32) {
    && (id in w1.table <==> id in w2.table)
    && (id in w1.table ==> w1.table[id] == w2.table[id])
    && CallsOf(w1.calls, id) == CallsOf(w2.calls, id)
  }

  /** A step about a session depends on nothing but that session's entry. */
  lemma StepIsLocal(t1: Table, t2: Table, p: Packet, remote: Bytes, h: Handler, at: Times)
    requires p.hdr.ptype == AUTHENTICATION
    requires var id := p.hdr.sessionId; (id in t1 <==> id in t2) && (id in t1 ==> t1[id] == t2[id])
    ensures var o1, o2, id := Step(t1, p, remote, h, at), Step(t2, p, remote, h, at), p.hdr.sessionId;
            && o1.call == o2.call && o1.reply == o2.reply
            && (id in o1.table <==> id in o2.table)
            && (id in o1.table ==> o1.table[id] == o2.table[id])
  {
    hide AuthenStartParse, AuthenContinueParse, AuthenReplyTo;
  }

  lemma NextIsLocal(w1: World, w2: World, ttl: int, e: Event, id: uint32)
    requires SameFor(w1, w2, id)
    ensures Concerns(e, id) ==> SameFor(Next(w1, ttl, e), Next(w2, ttl, e), id)
    ensures !Concerns(e, id) ==> SameFor(Next(w1, ttl, e), w2, id)
  {
    hide Step;
    if e.Arrive? {
      var o1 := Step(w1.table, e.p, e.remote, e.h, e.at);
      if Concerns(e, id) {
        StepIsLocal(w1.table, w2.table, e.p, e.remote, e.h, e.at);
        if o1.call.Some? {
          CallsOfAppend(w1.calls, o1.call.value, id);
          CallsOfAppend(w2.calls, o1.call.value, id);
        } else {
          assert w1.calls + [] == w1.calls && w2.calls + [] == w2.calls;
        }
      } else {
        StepIsolated(w1.table, e.p, e.remote, e.h, e.at, id);
        if o1.call.Some? {
          CallsOfAppend(w1.calls, o1.call.value, id);
        } else {
          assert w1.calls + [] == w1.calls;
        }
      }
    }
  }

  /** In every run a session fares exactly as if its own packets and the sweeps were all that happened. */
  lemma {:induction false} SessionsDoNotInterfere(w: World, ttl: int, es: seq<Event>, id: uint32)
    ensures SameFor(Play(w, ttl, es), Play(w, ttl, Project(es, id)), id)
  {
    if es != [] {
      var front, last := es[..|es| - 1], es[|es| - 1];
      SessionsDoNotInterfere(w, ttl, front, id);
      NextIsLocal(Play(w, ttl, front), Play(w, ttl, Project(front, id)), ttl, last, id);
      if Concerns(last, id) {
        var ps := Project(front, id) + [last];
        assert ps[..|ps| - 1] == Project(front, id);
      } else {
        assert Project(es, id) == Project(front, id);
      }
    }
  }

  // ---------------------------------------------------------------- a login as long as can be

  /** A handler that never has enough. */
  function Insatiable(): Handler {
    Handler((_, _) => Some(AuthenReply(AUTHEN_GET_PASS, 0, [], [])), _ => None, _ => None)
  }

  const PLAIN_START := AuthenStart(1, 1, 1, 1, [], [], [], [])

  /** The j-th packet of a login: a START, then CONTINUEs. */
  function LoginPacket(id: uint32, j: nat): Packet
    requires j < 128
  {
    Packet(Header(0xc0, AUTHENTICATION, 2 * j + 1, 0, id, 0),
           if j == 0 then AuthenStartWire(PLAIN_START) else AuthenContinueWire(AuthenContinue([], [], 0)))
  }

  function LongLogin(id: uint32, n: nat): seq<Event>
    requires n <= 128
  {
    if n == 0 then [] else LongLogin(id, n - 1) + [Arrive(LoginPacket(id, n - 1), [], Insatiable(), Times(0, 0))]
  }

  lemma LoginPacketDecodes(id: uint32, j: nat)
    requires j < 128
    ensures if j == 0 then AuthenStartParse(LoginPacket(id, j).body) == Ok(PLAIN_START)
            else AuthenContinueParse(LoginPacket(id, j).body).Ok?
  {
    AuthenStartParseInvertsWire(PLAIN_START);
    AuthenContinueParseInvertsWire(AuthenContinue([], [], 0));
  }

  /** After n packets the handler has been asked n times and the server awaits number 2n+1. */
  predicate Reached(w: World, id: uint32, n: nat) {
    && |CallsOf(w.calls, id)| == n
    && id in w.table && w.table[id].lastOutboundSeq == (2 * n) % 256
    && w.calls != [] && IsAuthenFor(w.calls[|w.calls| - 1], id) && w.calls[|w.calls| - 1].authen.seqNo == 2 * n - 1
  }

  /** The bounds are attained: the handler is asked 128 times, and after the 128th packet, numbered 255,
      the server stores, as it sends, number 0. */
  lemma {:induction false} LongLoginRuns(id: uint32, ttl: int, n: nat)
    requires 0 < n <= 128
    ensures Reached(Play(EMPTY, ttl, LongLogin(id, n)), id, n)
  {
    hide Next, Reached, LoginPacket, Insatiable;
    var es := LongLogin(id, n);
    LongLoginLength(id, n);
    LongLoginLength(id, n - 1);
    assert es[..n - 1] == LongLogin(id, n - 1);
    if n > 1 {
      LongLoginRuns(id, ttl, n - 1);
    }
    OneMorePacket(Play(EMPTY, ttl, LongLogin(id, n - 1)), id, ttl, n);
  }

  lemma OneMorePacket(w: World, id: uint32, ttl: int, n: nat)
    requires 0 < n <= 128 && if n == 1 then w == EMPTY else Reached(w, id, n - 1)
    ensures Reached(Next(w, ttl, Arrive(LoginPacket(id, n - 1), [], Insatiable(), Times(0, 0))), id, n)
  {
    hide Step, AuthenStartWire, AuthenContinueWire, CallsOf;
    var p, h, at := LoginPacket(id, n - 1), Insatiable(), Times(0, 0);
    LongLoginStep(w, p, id, n);
    AfterConsultation(w.table, p, [], h, at);
    CallsOfAppend(w.calls, Step(w.table, p, [], h, at).call.value, id);
    NoCalls(id);
  }

  lemma NoCalls(id: uint32)
    ensures CallsOf([], id) == []
  {
  }

  lemma {:induction false} LongLoginLength(id: uint32, n: nat)
    requires n <= 128
    ensures |LongLogin(id, n)| == n
  {
    if n > 0 {
      LongLoginLength(id, n - 1);
    }
  }

  lemma LongLoginStep(w: World, p: Packet, id: uint32, n: nat)
    requires 0 < n <= 128 && p == LoginPacket(id, n - 1)
    requires n == 1 || (id in w.table && w.table[id].lastOutboundSeq == 2 * n - 2)
    ensures Step(w.table, p, [], Insatiable(), Times(0, 0)).call.Some?
  {
    hide AuthenStartParse, AuthenContinueParse, Decide;
    LoginPacketDecodes(id, n - 1);
    if n > 1 {
      ContinueAcceptedIff(w.table, p, [], Insatiable(), Times(0, 0));
    } else {
      StartAsked(w.table, p);
    }
  }

  lemma StartAsked(t: Table, p: Packet)
    requires p.hdr.ptype == AUTHENTICATION && p.hdr.seqNo == 1 && AuthenStartParse(p.body).Ok?
    ensures Step(t, p, [], Insatiable(), Times(0, 0)).call.Some?
  {
  }
}
