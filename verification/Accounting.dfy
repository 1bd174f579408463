/**
  An accounting exchange end to end, as for authorization: the client's record to the server's handler and
  the answer back (client/client.go, server/server.go, packet/acct.go, transport/conn.go, types/arg.go).
*/
module Accounting {
  import opened Base
  import opened Arguments
  import opened Bodies
  import opened Framing
  import opened Marshal
  import opened Sessions
  import opened Server
  import opened Connection
  import opened Client
  import opened Login
  import opened Authorization

  function RecordTurn(l: Link, ask: AcctAsk, t: Table): Turn
    requires AcctRequestFits(AcctRequestFor(ask))
  {
    TakeTurn(l.allow, l.key, l.remote, l.env, l.k, l.connFlags, t,
             Frame(l.key, AcctHeader(l.id, l.seqNo), AcctRequestWire(AcctRequestFor(ask))))
  }

  /** What the handler is told when nothing is lost on the way. */
  function IntendedRecord(l: Link, ask: AcctAsk): AcctContext {
    AcctContext(l.id, l.seqNo, ask.flags, ask.method_, ask.privLvl, ask.authenType, ask.service,
                ask.user, ask.port, ask.remAddr, ask.args, l.remote)
  }

  predicate RecordSendable(l: Link, ask: AcctAsk) {
    && AcctRequestFits(AcctRequestFor(ask))
    && |AcctRequestWire(AcctRequestFor(ask))| <= MAX_PACKET_SIZE
    && !l.env.cancelled(l.k)
    && (l.connFlags == None || l.connFlags == Some(LoginFlags(l.key.mode)))
  }

  lemma RecordArrives(l: Link, ask: AcctAsk, t: Table)
    requires RecordSendable(l, ask)
    ensures var turn := RecordTurn(l, ask, t);
            var hdr, body := AcctHeader(l.id, l.seqNo), AcctRequestWire(AcctRequestFor(ask));
            var a := AcctStep(Sealed(l.key, hdr, body), body, l.remote, l.env.handler(l.k));
            turn.Dispatched? && turn.call == a.call && turn.x.reply == a.reply
            && turn.x.request.hdr == Sealed(l.key, hdr, body) && turn.table == l.env.others(l.k, t)
  {
    hide Frame, ReadFrame, AcctStep, AcctRequestWire;
    var hdr, body := AcctHeader(l.id, l.seqNo), AcctRequestWire(AcctRequestFor(ask));
    FrameReadsBack(l.key, hdr, body, []);
    assert Frame(l.key, hdr, body) + [] == Frame(l.key, hdr, body);
  }

  /** The handler receives exactly the client's record if and only if its flags name a record and every
      argument is well formed. */
  lemma RecordDelivered(l: Link, ask: AcctAsk, t: Table)
    requires RecordSendable(l, ask)
    ensures var turn := RecordTurn(l, ask, t);
            turn.Dispatched? && (turn.call == Some(AcctCall(IntendedRecord(l, ask))) <==> ValidRecord(ask.flags) && AllWellFormed(ask.args))
  {
    hide RecordTurn, AcctRequestWire, AcctRequestParse, AcctStep, ParseAll, RenderAll, ValidRecord;
    RecordArrives(l, ask, t);
    AcctRequestParseInvertsWire(AcctRequestFor(ask));
    ParseAllInvertsRenderAll(ask.args);
    var hdr, body := AcctHeader(l.id, l.seqNo), AcctRequestWire(AcctRequestFor(ask));
    AcctAnswers(Sealed(l.key, hdr, body), body, l.remote, l.env.handler(l.k));
  }

  function AcctResultOf(l: Link, x: Exchange): Result<AcctResult> {
    HearAcct(ReadFrame(l.key, Written(l.key, x)))
  }

  lemma AcctHeard(l: Link, x: Exchange, reply: AcctReply)
    requires ValidVersion(x.request.hdr.version) && x.reply.Typed? && AcctReplyParse(x.reply.body) == Ok(reply)
    ensures AcctResultOf(l, x) == if |x.reply.body| <= MAX_PACKET_SIZE
                                  then Ok(AcctResult(if reply.status == 0x21 then 0x02 else reply.status, reply.serverMsg))
                                  else Err(InvalidLength)
  {
    hide Frame, ReadFrame, AcctReplyWire;
    var hdr, body := ReplyHeader(x.request.hdr), x.reply.body;
    AcctReplyWireInvertsParse(body);
    AcctReplyParseInvertsWire(reply);
    assert Frame(l.key, hdr, body) + [] == Frame(l.key, hdr, body);
    if |body| <= MAX_PACKET_SIZE {
      FrameReadsBack(l.key, hdr, body, []);
    } else {
      OversizeStops(l.key, hdr, body, []);
    }
  }

  /** For a delivered record the client returns exactly the handler's status, a follow as an error, and
      message, if and only if the message leaves room for the five fixed bytes of a reply in a frame; a
      failing handler is returned as an error, and so is a record whose flags are not valid. */
  lemma AnswerReturned(l: Link, ask: AcctAsk, t: Table)
    requires RecordSendable(l, ask) && AllWellFormed(ask.args)
    ensures var turn := RecordTurn(l, ask, t);
            && turn.Dispatched?
            && var r := AcctResultOf(l, turn.x);
               if !ValidRecord(ask.flags) then r == Ok(AcctResult(0x02, []))
               else
                 match l.env.handler(l.k).acct(IntendedRecord(l, ask))
                 case None => r == Ok(AcctResult(0x02, []))
                 case Some(dec) =>
                   r == Ok(AcctResult(if dec.status == 0x21 then 0x02 else dec.status, dec.serverMsg)) <==> |dec.serverMsg| <= 65531
  {
    hide RecordTurn, AcctRequestWire, AcctRequestParse, AcctStep, AcctReplyParse, ParseAll, RenderAll, ValidRecord, AcctResultOf;
    RecordArrives(l, ask, t);
    AcctRequestParseInvertsWire(AcctRequestFor(ask));
    ParseAllInvertsRenderAll(ask.args);
    var hdr, body := AcctHeader(l.id, l.seqNo), AcctRequestWire(AcctRequestFor(ask));
    AcctAnswers(Sealed(l.key, hdr, body), body, l.remote, l.env.handler(l.k));
    var x := RecordTurn(l, ask, t).x;
    if x.reply.Typed? {
      AcctHeard(l, x, AcctReplyParse(x.reply.body).value);
      AcctReplySize(x.reply.body);
    } else {
      AcctGenericHeard(l, x);
    }
  }

  lemma AcctReplySize(body: Bytes)
    requires AcctReplyParse(body).Ok?
    ensures var r := AcctReplyParse(body).value; |body| == 5 + |r.serverMsg| + |r.data|
  {
  }

  lemma AcctGenericHeard(l: Link, x: Exchange)
    requires ValidVersion(x.request.hdr.version) && x.reply == Generic
    ensures AcctResultOf(l, x) == Err(InvalidPacket)
  {
    hide Frame, ReadFrame;
    var hdr := ReplyHeader(x.request.hdr);
    assert Frame(l.key, hdr, []) + [] == Frame(l.key, hdr, []);
    FrameReadsBack(l.key, hdr, [], []);
  }
}
