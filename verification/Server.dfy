/**
  What the server does with one packet (server/server.go, server/handler.go, server/middleware.go).

  `Step` says, for a packet and the shared session table, which reply goes out, how the table changes
  and whether the policy handler is consulted. The class `Server` is the code that does it. The
  handler is a parameter of every step, so it may answer differently each time it is asked.
*/
module Server {
  import opened Base
  import opened Arguments
  import opened Bodies
  import opened Framing
  import opened Marshal
  import opened Sessions

  const AUTHENTICATION: byte := 1
  const AUTHORIZATION: byte := 2
  const ACCOUNTING: byte := 3

  const AUTHEN_PASS: byte := 0x01
  const AUTHEN_FAIL: byte := 0x02
  const AUTHEN_GET_PASS: byte := 0x05
  const AUTHEN_RESTART: byte := 0x06
  const AUTHEN_ERROR: byte := 0x07
  const AUTHEN_FOLLOW: byte := 0x21
  const AUTHOR_FAIL: byte := 0x10
  const AUTHOR_ERROR: byte := 0x11
  const AUTHOR_FOLLOW: byte := 0x21
  const ACCT_ERROR: byte := 0x02
  const ACCT_FOLLOW: byte := 0x21

  // ---------------------------------------------------------------- the policy handler

  datatype AuthenContext = AuthenContext(sessionId: uint32, seqNo: byte, start: AuthenStart, remoteAddr: Bytes)

  datatype AuthorContext = AuthorContext(
    sessionId: uint32, seqNo: byte, method_: byte, privLvl: byte, authenType: byte, service: byte,
    user: Bytes, port: Bytes, remAddr: Bytes, args: seq<Argument>, remoteAddr: Bytes)

  datatype AuthorDecision = AuthorDecision(status: byte, args: seq<Argument>, serverMsg: Bytes)

  datatype AcctContext = AcctContext(
    sessionId: uint32, seqNo: byte, flags: byte, method_: byte, privLvl: byte, authenType: byte, service: byte,
    user: Bytes, port: Bytes, remAddr: Bytes, args: seq<Argument>, remoteAddr: Bytes)

  datatype AcctDecision = AcctDecision(status: byte, serverMsg: Bytes)

  /** The application's policy; `None` is a returned error. An authentication decision has the
      fields of an authentication reply. */
  datatype Handler = Handler(
    authen: (AuthenContext, Option<AuthenContinue>) -> Option<AuthenReply>,
    author: AuthorContext -> Option<AuthorDecision>,
    acct: AcctContext -> Option<AcctDecision>)

  datatype Call =
    | AuthenCall(authen: AuthenContext, cont: Option<AuthenContinue>)
    | AuthorCall(author: AuthorContext)
    | AcctCall(acct: AcctContext)

  // ---------------------------------------------------------------- replies

  /** The header-only error packet, or a reply with a body. */
  datatype Reply = Generic | Typed(body: Bytes)

  function ReplyHeader(inbound: Header): Header {
    Header(inbound.version, inbound.ptype, Succ8(inbound.seqNo), inbound.flags, inbound.sessionId, 0)
  }

  function ReplyPacket(inbound: Header, r: Reply): Packet {
    Packet(ReplyHeader(inbound), if r.Generic? then [] else r.body)
  }

  datatype Outcome = Outcome(table: Table, reply: Reply, call: Option<Call>)

  // ---------------------------------------------------------------- authentication

  /** Clock readings taken when a packet is registered and when its answer is recorded. */
  datatype Times = Times(arrived: int, answered: int)

  predicate ValidNextSeqNo(inbound: byte, lastOutboundSeq: byte) {
    inbound == if lastOutboundSeq == 0 then 1 else Succ8(lastOutboundSeq)
  }

  predicate EndsSession(status: byte) {
    status == AUTHEN_PASS || status == AUTHEN_FAIL || status == AUTHEN_ERROR
  }

  function Answered(seqNo: byte): SessionContext -> SessionContext {
    (c: SessionContext) => c.(lastOutboundSeq := Succ8(seqNo))
  }

  function AuthenErrorBody(): Bytes {
    AuthenReplyWire(AuthenReply(AUTHEN_ERROR, 0, [], []))
  }

  /** The table once the handler has answered a packet of a session that is in it. */
  function AfterAnswer(t: Table, hdr: Header, answer: Option<AuthenReply>, at: Times): Table {
    if answer.None? || EndsSession(answer.value.status) then t - {hdr.sessionId}
    else Updated(t, hdr.sessionId, Answered(hdr.seqNo), at.answered)
  }

  function AuthenReplyTo(answer: Option<AuthenReply>): Reply {
    match answer
    case None => Typed(AuthenErrorBody())
    case Some(dec) => if AuthenReplyFits(dec) then Typed(AuthenReplyWire(dec)) else Generic
  }

  /** Asks the handler and records its answer. */
  function Decide(t: Table, hdr: Header, start: AuthenStart, cont: Option<AuthenContinue>,
                  remote: Bytes, h: Handler, at: Times): Outcome
  {
    var ctx := AuthenContext(hdr.sessionId, hdr.seqNo, start, remote);
    var answer := h.authen(ctx, cont);
    Outcome(AfterAnswer(t, hdr, answer, at), AuthenReplyTo(answer), Some(AuthenCall(ctx, cont)))
  }

  function NewSession(hdr: Header, start: AuthenStart, remote: Bytes): SessionContext {
    SessionContext(start, hdr.flags, remote, 0, 0, 0)
  }

  function AuthenStep(t: Table, hdr: Header, body: Bytes, remote: Bytes, h: Handler, at: Times): Outcome {
    var id := hdr.sessionId;
    if hdr.seqNo == 1 then
      match AuthenStartParse(body)
      case Err(_) => Outcome(t, Generic, None)
      case Ok(start) =>
        Decide(Registered(t, id, NewSession(hdr, start, remote), at.arrived), hdr, start, None, remote, h, at)
    else if id !in t then Outcome(t, Generic, None)
    else if !ValidNextSeqNo(hdr.seqNo, t[id].lastOutboundSeq) then Outcome(t - {id}, Generic, None)
    else
      match AuthenContinueParse(body)
      case Err(_) => Outcome(t, Generic, None)
      case Ok(cont) => Decide(t, hdr, t[id].start, Some(cont), remote, h, at)
  }

  // ---------------------------------------------------------------- authorization and accounting

  datatype Answer = Answer(reply: Reply, call: Option<Call>)

  function AuthorErrorBody(): Bytes {
    AuthorReplyWire(AuthorReply(AUTHOR_ERROR, [], [], []))
  }

  function AuthorContextOf(hdr: Header, req: AuthorRequest, args: seq<Argument>, remote: Bytes): AuthorContext {
    AuthorContext(hdr.sessionId, hdr.seqNo, req.method_, req.privLvl, req.authenType, req.service,
                  req.user, req.port, req.remAddr, args, remote)
  }

  function AuthorReplyOf(dec: AuthorDecision): AuthorReply {
    AuthorReply(dec.status, dec.serverMsg, [], RenderAll(dec.args))
  }

  function AuthorStep(hdr: Header, body: Bytes, remote: Bytes, h: Handler): Answer {
    match AuthorRequestParse(body)
    case Err(_) => Answer(Generic, None)
    case Ok(req) =>
      match ParseAll(req.args)
      case Err(_) => Answer(Typed(AuthorErrorBody()), None)
      case Ok(args) =>
        var ctx := AuthorContextOf(hdr, req, args, remote);
        match h.author(ctx)
        case None => Answer(Typed(AuthorErrorBody()), Some(AuthorCall(ctx)))
        case Some(dec) =>
          Answer(match AuthorReplyOutcome(AuthorReplyOf(dec)) case Ok(b) => Typed(b) case Err(_) => Generic,
                 Some(AuthorCall(ctx)))
  }

  /** Bits 1 to 3 of the flags name a record: start, stop, watchdog, or watchdog with update. */
  predicate ValidRecord(flags: byte) {
    flags / 2 % 8 in {1, 2, 4, 5}
  }

  function AcctErrorBody(): Bytes {
    AcctReplyWire(AcctReply(ACCT_ERROR, [], []))
  }

  function AcctContextOf(hdr: Header, req: AcctRequest, args: seq<Argument>, remote: Bytes): AcctContext {
    AcctContext(hdr.sessionId, hdr.seqNo, req.flags, req.method_, req.privLvl, req.authenType, req.service,
                req.user, req.port, req.remAddr, args, remote)
  }

  function AcctStep(hdr: Header, body: Bytes, remote: Bytes, h: Handler): Answer {
    match AcctRequestParse(body)
    case Err(_) => Answer(Generic, None)
    case Ok(req) =>
      if !ValidRecord(req.flags) then Answer(Typed(AcctErrorBody()), None)
      else
        match ParseAll(req.args)
        case Err(_) => Answer(Typed(AcctErrorBody()), None)
        case Ok(args) =>
          var ctx := AcctContextOf(hdr, req, args, remote);
          match h.acct(ctx)
          case None => Answer(Typed(AcctErrorBody()), Some(AcctCall(ctx)))
          case Some(dec) =>
            var rep := AcctReply(dec.status, dec.serverMsg, []);
            Answer(if AcctReplyFits(rep) then Typed(AcctReplyWire(rep)) else Generic, Some(AcctCall(ctx)))
  }

  // ---------------------------------------------------------------- dispatch

  function Step(t: Table, p: Packet, remote: Bytes, h: Handler, at: Times): Outcome {
    if p.hdr.ptype == AUTHENTICATION then AuthenStep(t, p.hdr, p.body, remote, h, at)
    else if p.hdr.ptype == AUTHORIZATION then
      var a := AuthorStep(p.hdr, p.body, remote, h);
      Outcome(t, a.reply, a.call)
    else if p.hdr.ptype == ACCOUNTING then
      var a := AcctStep(p.hdr, p.body, remote, h);
      Outcome(t, a.reply, a.call)
    else Outcome(t, Generic, None)
  }

  /** A typed reply always has at least five bytes, so an empty body on the wire means a generic error. */
  lemma TypedReplyNotEmpty(t: Table, p: Packet, remote: Bytes, h: Handler, at: Times)
    ensures var r := Step(t, p, remote, h, at).reply; r.Typed? ==> |r.body| >= 5
  {
    hide AuthenStartParse, AuthenContinueParse, AuthorRequestParse, AcctRequestParse, ParseAll;
  }

  /** The reply to an authorization or accounting request that cannot be decided: status error. */
  lemma ErrorBodies()
    ensures AuthenReplyParse(AuthenErrorBody()) == Ok(AuthenReply(0x07, 0, [], []))
    ensures AuthorReplyParse(AuthorErrorBody()) == Ok(AuthorReply(0x11, [], [], []))
    ensures AcctReplyParse(AcctErrorBody()) == Ok(AcctReply(0x02, [], []))
  {
    AuthenReplyParseInvertsWire(AuthenReply(0x07, 0, [], []));
    AuthorReplyParseInvertsWire(AuthorReply(0x11, [], [], []));
    AcctReplyParseInvertsWire(AcctReply(0x02, [], []));
  }

  /** An authorization request: the handler is asked, with exactly the fields of the request and the packet,
      if and only if the request decodes and all its arguments parse. A request that does not decode gets the
      generic error, an argument that does not parse or a failing handler status error, and a decision that
      fits a reply its status, message and arguments. */
  lemma AuthorAnswers(hdr: Header, body: Bytes, remote: Bytes, h: Handler)
    ensures var a := AuthorStep(hdr, body, remote, h);
            match AuthorRequestParse(body)
            case Err(_) => a == Answer(Generic, None)
            case Ok(req) =>
              match ParseAll(req.args)
              case Err(_) => a.call == None && a.reply.Typed? && AuthorReplyParse(a.reply.body) == Ok(AuthorReply(0x11, [], [], []))
              case Ok(args) =>
                var ctx := AuthorContext(hdr.sessionId, hdr.seqNo, req.method_, req.privLvl, req.authenType, req.service,
                                         req.user, req.port, req.remAddr, args, remote);
                && a.call == Some(AuthorCall(ctx))
                && match h.author(ctx)
                   case None => a.reply.Typed? && AuthorReplyParse(a.reply.body) == Ok(AuthorReply(0x11, [], [], []))
                   case Some(dec) =>
                     var rep := AuthorReply(dec.status, dec.serverMsg, [], RenderAll(dec.args));
                     if AuthorReplyFits(rep) then a.reply.Typed? && AuthorReplyParse(a.reply.body) == Ok(rep) else a.reply == Generic
  {
    hide AuthorRequestParse, ParseAll, RenderAll, AuthorReplyParse, AuthorReplyOutcome, AuthorErrorBody, AuthorReplyFits;
    ErrorBodies();
    match AuthorRequestParse(body)
    case Err(_) =>
    case Ok(req) =>
      match ParseAll(req.args)
      case Err(_) =>
      case Ok(args) =>
        match h.author(AuthorContextOf(hdr, req, args, remote))
        case None =>
        case Some(dec) => DecisionMarshals(dec);
  }

  lemma DecisionMarshals(dec: AuthorDecision)
    ensures var rep, r := AuthorReply(dec.status, dec.serverMsg, [], RenderAll(dec.args)), AuthorReplyOutcome(AuthorReplyOf(dec));
            && (r.Ok? <==> AuthorReplyFits(rep))
            && (r.Ok? ==> AuthorReplyParse(r.value) == Ok(rep))
  {
    hide AuthorReplyParse, AuthorReplyWire, RenderAll;
    var rep := AuthorReplyOf(dec);
    if AuthorReplyFits(rep) {
      AuthorReplyParseInvertsWire(rep);
    }
  }

  /** A record is a start (bit 1), a stop (bit 2), a watchdog (bit 3), or a watchdog with update, which is
      start and watchdog together. */
  lemma RecordIs(flags: byte)
    ensures var start, stop, watchdog := flags / 2 % 2 == 1, flags / 4 % 2 == 1, flags / 8 % 2 == 1;
            ValidRecord(flags) <==> if stop then !start && !watchdog else start || watchdog
  {
    ThreeBits(flags);
  }

  lemma ThreeBits(n: int)
    ensures n / 2 % 8 == n / 2 % 2 + 2 * (n / 4 % 2) + 4 * (n / 8 % 2)
  {
    var m := n / 2;
    var half := m / 2;
    var quarter := half / 2;
    assert half == n / 4 && quarter == n / 8;
    assert m == 8 * (quarter / 2) + (m % 2 + 2 * (half % 2) + 4 * (quarter % 2));
  }

  /** An accounting request: the handler is asked, with exactly the fields of the request and the packet, if
      and only if the request decodes, its flags name a record and all its arguments parse; the replies are
      those of authorization, with accounting's status error. */
  lemma AcctAnswers(hdr: Header, body: Bytes, remote: Bytes, h: Handler)
    ensures var a := AcctStep(hdr, body, remote, h);
            match AcctRequestParse(body)
            case Err(_) => a == Answer(Generic, None)
            case Ok(req) =>
              if !ValidRecord(req.flags) || ParseAll(req.args).Err?
              then a.call == None && a.reply.Typed? && AcctReplyParse(a.reply.body) == Ok(AcctReply(0x02, [], []))
              else
                var ctx := AcctContext(hdr.sessionId, hdr.seqNo, req.flags, req.method_, req.privLvl, req.authenType, req.service,
                                       req.user, req.port, req.remAddr, ParseAll(req.args).value, remote);
                && a.call == Some(AcctCall(ctx))
                && match h.acct(ctx)
                   case None => a.reply.Typed? && AcctReplyParse(a.reply.body) == Ok(AcctReply(0x02, [], []))
                   case Some(dec) =>
                     if |dec.serverMsg| <= 0xffff
                     then a.reply.Typed? && AcctReplyParse(a.reply.body) == Ok(AcctReply(dec.status, dec.serverMsg, []))
                     else a.reply == Generic
  {
    hide AcctRequestParse, ParseAll, AcctReplyParse, AcctReplyWire, AcctErrorBody;
    ErrorBodies();
    match AcctRequestParse(body)
    case Err(_) =>
    case Ok(req) =>
      if ValidRecord(req.flags) && ParseAll(req.args).Ok? {
        match h.acct(AcctContextOf(hdr, req, ParseAll(req.args).value, remote))
        case None =>
        case Some(dec) =>
          var rep := AcctReply(dec.status, dec.serverMsg, []);
          if AcctReplyFits(rep) {
            AcctReplyParseInvertsWire(rep);
          }
      }
  }

  /** The answers that end a session: pass, fail and error. */
  lemma EndsSessionIs(status: byte)
    ensures EndsSession(status) <==> status in {0x01, 0x02, 0x07}
  {
  }

  /** Only authentication packets change the table, and each type of packet is put to its own part of the
      handler; any other type gets the generic error. */
  lemma DispatchByType(t: Table, p: Packet, remote: Bytes, h: Handler, at: Times)
    ensures var o := Step(t, p, remote, h, at);
            && (o.call.Some? ==>
                  match o.call.value
                  case AuthenCall(_, _) => p.hdr.ptype == 0x01
                  case AuthorCall(_) => p.hdr.ptype == 0x02
                  case AcctCall(_) => p.hdr.ptype == 0x03)
            && (p.hdr.ptype != 0x01 ==> o.table == t)
            && (p.hdr.ptype !in {0x01, 0x02, 0x03} ==> o == Outcome(t, Generic, None))
  {
    hide AuthenStartParse, AuthenContinueParse, AuthorRequestParse, AcctRequestParse, ParseAll, AuthenReplyTo, AuthorReplyOutcome;
  }

  // ---------------------------------------------------------------- the server

  class Server {
    const sessions: SessionManager
    const allowUnencrypted: bool
    /** Every consultation of the handler, in order. */
    ghost var calls: seq<Call>

    constructor (allow: bool, mode: Mode, idle: int)
      ensures allowUnencrypted == (allow || mode == Tls)
      ensures fresh(sessions) && sessions.sessions == map[] && sessions.active == 0
      ensures calls == []
    {
      allowUnencrypted := allow || mode == Tls;
      sessions := new SessionManager(idle);
      calls := [];
    }

    ghost predicate Recorded(before: seq<Call>, call: Option<Call>)
      reads this
    {
      calls == before + if call.Some? then [call.value] else []
    }

    method WriteReply(c: Conn, inbound: Header, body: Bytes)
      modifies c`output
      ensures c.output == old(c.output) + Frame(c.key, ReplyHeader(inbound), body)
    {
      c.WritePacket(ReplyHeader(inbound), body);
    }

    method SendGenericError(c: Conn, inbound: Header)
      modifies c`output
      ensures c.output == old(c.output) + Frame(c.key, ReplyHeader(inbound), [])
    {
      c.WritePacket(ReplyHeader(inbound), []);
    }

    method HandleAuthen(c: Conn, hdr: Header, body: Bytes, h: Handler, at: Times)
      modifies sessions, c`output, this`calls
      ensures var o := AuthenStep(old(sessions.sessions), hdr, body, c.remote, h, at);
              && sessions.sessions == o.table
              && c.output == old(c.output) + Frame(c.key, ReplyHeader(hdr), ReplyPacket(hdr, o.reply).body)
              && Recorded(old(calls), o.call)
      ensures sessions.Drift() == old(sessions.Drift())
    {
      hide Frame, Apply, AuthenStartParse, AuthenContinueParse, Decide;
      var id := hdr.sessionId;
      var cont: Option<AuthenContinue> := None;
      var start: AuthenStart;
      if hdr.seqNo == 1 {
        var st := new Ref(AuthenStart(0, 0, 0, 0, [], [], [], []));
        var e := UnmarshalAuthenStart(st, body);
        if e.Some? {
          SendGenericError(c, hdr);
          return;
        }
        start := st.value;
        sessions.Set(id, NewSession(hdr, start, c.remote), at.arrived);
      } else {
        var sctx := sessions.Get(id);
        if sctx.None? {
          SendGenericError(c, hdr);
          return;
        }
        var expected := if sctx.value.lastOutboundSeq == 0 then 1 else Succ8(sctx.value.lastOutboundSeq);
        if hdr.seqNo != expected {
          sessions.Delete(id);
          SendGenericError(c, hdr);
          return;
        }
        start := sctx.value.start;
        var ct := new Ref(AuthenContinue([], [], 0));
        var e := UnmarshalAuthenContinue(ct, body);
        if e.Some? {
          SendGenericError(c, hdr);
          return;
        }
        cont := Some(ct.value);
      }
      Conclude(c, hdr, start, cont, h, at);
    }

    /** The second half of an authentication step: ask, record, reply. */
    method Conclude(c: Conn, hdr: Header, start: AuthenStart, cont: Option<AuthenContinue>, h: Handler, at: Times)
      modifies sessions, c`output, this`calls
      ensures var o := Decide(old(sessions.sessions), hdr, start, cont, c.remote, h, at);
              && sessions.sessions == o.table
              && c.output == old(c.output) + Frame(c.key, ReplyHeader(hdr), ReplyPacket(hdr, o.reply).body)
              && Recorded(old(calls), o.call)
      ensures sessions.Drift() == old(sessions.Drift())
    {
      hide Frame, AfterAnswer, AuthenReplyTo;
      var ctx := AuthenContext(hdr.sessionId, hdr.seqNo, start, c.remote);
      var answer := h.authen(ctx, cont);
      calls := calls + [AuthenCall(ctx, cont)];
      Settle(hdr, answer, at);
      Respond(c, hdr, answer);
    }

    method Settle(hdr: Header, answer: Option<AuthenReply>, at: Times)
      modifies sessions
      ensures sessions.sessions == AfterAnswer(old(sessions.sessions), hdr, answer, at)
      ensures sessions.Drift() == old(sessions.Drift())
    {
      hide Apply;
      if answer.None? {
        sessions.Delete(hdr.sessionId);
        return;
      }
      var status := answer.value.status;
      if status == AUTHEN_PASS || status == AUTHEN_FAIL || status == AUTHEN_ERROR {
        sessions.Delete(hdr.sessionId);
      } else {
        sessions.Update(hdr.sessionId, Answered(hdr.seqNo), at.answered);
      }
    }

    method Respond(c: Conn, hdr: Header, answer: Option<AuthenReply>)
      modifies c`output
      ensures c.output == old(c.output) + Frame(c.key, ReplyHeader(hdr), ReplyPacket(hdr, AuthenReplyTo(answer)).body)
    {
      hide Frame, AuthenReplyWire;
      if answer.None? {
        var rb := MarshalAuthenReply(AuthenReply(AUTHEN_ERROR, 0, [], []));
        WriteReply(c, hdr, rb.value);
        return;
      }
      var rb := MarshalAuthenReply(answer.value);
      if rb.Err? {
        SendGenericError(c, hdr);
        return;
      }
      WriteReply(c, hdr, rb.value);
    }

    method HandleAuthor(c: Conn, hdr: Header, body: Bytes, h: Handler)
      modifies c`output, this`calls
      ensures var a := AuthorStep(hdr, body, c.remote, h);
              && c.output == old(c.output) + Frame(c.key, ReplyHeader(hdr), ReplyPacket(hdr, a.reply).body)
              && Recorded(old(calls), a.call)
    {
      hide Frame, AuthorReplyWire, AuthorRequestParse, ParseAll, RenderAll;
      var req := new Ref(AuthorRequest(0, 0, 0, 0, [], [], [], []));
      var e := UnmarshalAuthorRequest(req, body);
      if e.Some? {
        SendGenericError(c, hdr);
        return;
      }
      var args, _ := ParseArguments(req.value.args);
      if args.Err? {
        SendAuthorError(c, hdr);
        return;
      }
      var ctx := AuthorContextOf(hdr, req.value, args.value, c.remote);
      var answer := h.author(ctx);
      calls := calls + [AuthorCall(ctx)];
      if answer.None? {
        SendAuthorError(c, hdr);
        return;
      }
      var dec := answer.value;
      var rendered := RenderArguments(dec.args);
      var rb := MarshalAuthorReply(AuthorReply(dec.status, dec.serverMsg, [], rendered));
      if rb.Err? {
        SendGenericError(c, hdr);
        return;
      }
      WriteReply(c, hdr, rb.value);
    }

    method SendAuthorError(c: Conn, hdr: Header)
      modifies c`output
      ensures c.output == old(c.output) + Frame(c.key, ReplyHeader(hdr), AuthorErrorBody())
    {
      hide Frame;
      var rb := MarshalAuthorReply(AuthorReply(AUTHOR_ERROR, [], [], []));
      WriteReply(c, hdr, rb.value);
    }

    method HandleAcct(c: Conn, hdr: Header, body: Bytes, h: Handler)
      modifies c`output, this`calls
      ensures var a := AcctStep(hdr, body, c.remote, h);
              && c.output == old(c.output) + Frame(c.key, ReplyHeader(hdr), ReplyPacket(hdr, a.reply).body)
              && Recorded(old(calls), a.call)
    {
      hide Frame, AcctReplyWire, AcctRequestParse, ParseAll;
      var req := new Ref(AcctRequest(0, 0, 0, 0, 0, [], [], [], []));
      var e := UnmarshalAcctRequest(req, body);
      if e.Some? {
        SendGenericError(c, hdr);
        return;
      }
      if !ValidRecord(req.value.flags) {
        SendAcctError(c, hdr);
        return;
      }
      var args, _ := ParseArguments(req.value.args);
      if args.Err? {
        SendAcctError(c, hdr);
        return;
      }
      var ctx := AcctContextOf(hdr, req.value, args.value, c.remote);
      var answer := h.acct(ctx);
      calls := calls + [AcctCall(ctx)];
      if answer.None? {
        SendAcctError(c, hdr);
        return;
      }
      var rb := MarshalAcctReply(AcctReply(answer.value.status, answer.value.serverMsg, []));
      if rb.Err? {
        SendGenericError(c, hdr);
        return;
      }
      WriteReply(c, hdr, rb.value);
    }

    method SendAcctError(c: Conn, hdr: Header)
      modifies c`output
      ensures c.output == old(c.output) + Frame(c.key, ReplyHeader(hdr), AcctErrorBody())
    {
      hide Frame;
      var rb := MarshalAcctReply(AcctReply(ACCT_ERROR, [], []));
      WriteReply(c, hdr, rb.value);
    }

    /** The terminal request handler: dispatch on the packet type. */
    method Handle(c: Conn, p: Packet, h: Handler, at: Times)
      modifies sessions, c`output, this`calls
      ensures var o := Step(old(sessions.sessions), p, c.remote, h, at);
              && sessions.sessions == o.table
              && c.output == old(c.output) + Frame(c.key, ReplyHeader(p.hdr), ReplyPacket(p.hdr, o.reply).body)
              && Recorded(old(calls), o.call)
      ensures sessions.Drift() == old(sessions.Drift())
    {
      hide Frame, AuthenStep, AuthorStep, AcctStep;
      if p.hdr.ptype == AUTHENTICATION {
        HandleAuthen(c, p.hdr, p.body, h, at);
      } else if p.hdr.ptype == AUTHORIZATION {
        HandleAuthor(c, p.hdr, p.body, h);
      } else if p.hdr.ptype == ACCOUNTING {
        HandleAcct(c, p.hdr, p.body, h);
      } else {
        SendGenericError(c, p.hdr);
      }
    }
  }
}
