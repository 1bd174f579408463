/**
  An authorization exchange end to end: the client's request through argument text, body layout,
  obfuscation and framing to the server's handler, and the decision all the way back
  (client/client.go, server/server.go, packet/author.go, transport/conn.go, types/arg.go).
*/
module Authorization {
  import opened Base
  import opened Arguments
  import opened Layout
  import opened Bodies
  import opened Framing
  import opened Marshal
  import opened Sessions
  import opened Server
  import opened Connection
  import opened Client
  import opened Login

  /** The connection, the number of the packet on it, and the client's session and counter. */
  datatype Link = Link(key: Key, allow: bool, remote: Bytes, env: Env, k: nat, connFlags: Option<byte>, id: uint32, seqNo: byte)

  predicate AllWellFormed(args: seq<Argument>) {
    forall i | 0 <= i < |args| :: WellFormed(args[i])
  }

  function AskedTurn(l: Link, ask: AuthorAsk, t: Table): Turn
    requires AuthorRequestFits(AuthorRequestFor(ask))
  {
    TakeTurn(l.allow, l.key, l.remote, l.env, l.k, l.connFlags, t,
             Frame(l.key, AuthorHeader(l.id, l.seqNo), AuthorRequestWire(AuthorRequestFor(ask))))
  }

  /** What the handler is asked when nothing is lost on the way. */
  function Intended(l: Link, ask: AuthorAsk): AuthorContext {
    AuthorContext(l.id, l.seqNo, ask.method_, ask.privLvl, ask.authenType, ask.service,
                  ask.user, ask.port, ask.remAddr, ask.args, l.remote)
  }

  predicate Sendable(l: Link, ask: AuthorAsk) {
    && AuthorRequestFits(AuthorRequestFor(ask))
    && |AuthorRequestWire(AuthorRequestFor(ask))| <= MAX_PACKET_SIZE
    && !l.env.cancelled(l.k)
    && (l.connFlags == None || l.connFlags == Some(LoginFlags(l.key.mode)))
  }

  lemma RequestArrives(l: Link, ask: AuthorAsk, t: Table)
    requires Sendable(l, ask)
    ensures var turn := AskedTurn(l, ask, t);
            var hdr, body := AuthorHeader(l.id, l.seqNo), AuthorRequestWire(AuthorRequestFor(ask));
            var a := AuthorStep(Sealed(l.key, hdr, body), body, l.remote, l.env.handler(l.k));
            turn.Dispatched? && turn.call == a.call && turn.x.reply == a.reply
            && turn.x.request.hdr == Sealed(l.key, hdr, body) && turn.table == l.env.others(l.k, t)
  {
    hide Frame, ReadFrame, AuthorStep, AuthorRequestWire;
    var hdr, body := AuthorHeader(l.id, l.seqNo), AuthorRequestWire(AuthorRequestFor(ask));
    FrameReadsBack(l.key, hdr, body, []);
    assert Frame(l.key, hdr, body) + [] == Frame(l.key, hdr, body);
  }

  /** The handler receives exactly the client's fields and arguments if and only if every argument is
      well formed. */
  lemma RequestDelivered(l: Link, ask: AuthorAsk, t: Table)
    requires Sendable(l, ask)
    ensures var turn := AskedTurn(l, ask, t);
            turn.Dispatched? && (turn.call == Some(AuthorCall(Intended(l, ask))) <==> AllWellFormed(ask.args))
  {
    hide AskedTurn, AuthorRequestWire, AuthorRequestParse, ParseAll, RenderAll, AuthorReplyOutcome;
    RequestArrives(l, ask, t);
    AuthorRequestParseInvertsWire(AuthorRequestFor(ask));
    ParseAllInvertsRenderAll(ask.args);
  }

  /** What the client returns for the reply to this exchange. */
  function AuthorResultOf(l: Link, x: Exchange): Heard {
    HearAuthor(ReadFrame(l.key, Written(l.key, x)))
  }

  predicate Returnable(dec: AuthorDecision) {
    && AuthorReplyFits(AuthorReplyOf(dec))
    && |AuthorReplyWire(AuthorReplyOf(dec))| <= MAX_PACKET_SIZE
    && AllWellFormed(dec.args)
  }

  /** A reply body that fits a frame reaches the client; one that does not is an error there. */
  lemma ReplyHeard(l: Link, x: Exchange, body: Bytes)
    requires ValidVersion(x.request.hdr.version) && x.reply == Typed(body) && 0 < |body| < 0x1_0000_0000
    ensures |body| <= MAX_PACKET_SIZE ==>
              AuthorResultOf(l, x) == match AuthorReplyParse(body)
                                      case Err(e) => Failed(e)
                                      case Ok(reply) => HeardReply(reply)
    ensures |body| > MAX_PACKET_SIZE ==> AuthorResultOf(l, x).error.Some?
  {
    hide Frame, ReadFrame, AuthorReplyParse, HeardReply;
    var hdr := ReplyHeader(x.request.hdr);
    assert Frame(l.key, hdr, body) + [] == Frame(l.key, hdr, body);
    if |body| <= MAX_PACKET_SIZE {
      FrameReadsBack(l.key, hdr, body, []);
    } else {
      OversizeStops(l.key, hdr, body, []);
    }
  }

  lemma GenericHeard(l: Link, x: Exchange)
    requires ValidVersion(x.request.hdr.version) && x.reply == Generic
    ensures AuthorResultOf(l, x) == Failed(InvalidPacket)
  {
    hide Frame, ReadFrame;
    var hdr := ReplyHeader(x.request.hdr);
    assert Frame(l.key, hdr, []) + [] == Frame(l.key, hdr, []);
    FrameReadsBack(l.key, hdr, [], []);
  }

  /** Whatever is read, the client never returns a follow, returns a fail for one, and otherwise the status
      of the reply, so it returns a pass exactly when the reply has that pass; without a reply it fails. */
  lemma StatusHeard(r: Read)
    ensures var heard := HearAuthor(r);
            && heard.result.status != 0x21
            && if r.Got? && r.packet.hdr.length != 0 && AuthorReplyParse(r.packet.body).Ok?
               then
                 var sent := AuthorReplyParse(r.packet.body).value.status;
                 && heard.result.status == (if sent == 0x21 then 0x10 else sent)
                 && (heard.result.status in {0x01, 0x02} <==> sent in {0x01, 0x02})
               else heard.error.Some? && heard.result == AuthorResult(0, [], [])
  {
    hide AuthorReplyParse, ParseAll, ParsedFront;
  }

  /** A reply with an argument that does not parse is returned, up to that argument, with the error. */
  lemma PartialResult(r: Read, i: nat)
    requires r.Got? && r.packet.hdr.length != 0 && AuthorReplyParse(r.packet.body).Ok?
    requires var args := AuthorReplyParse(r.packet.body).value.args;
             i < |args| && Parse(args[i]).Err? && forall j | 0 <= j < i :: Parse(args[j]).Ok?
    ensures var reply, heard := AuthorReplyParse(r.packet.body).value, HearAuthor(r);
            && heard.error == Some(InvalidArgument) && |heard.result.args| == i && heard.result.serverMsg == reply.serverMsg
            && forall j | 0 <= j < i :: Parse(reply.args[j]) == Ok(heard.result.args[j])
  {
    hide AuthorReplyParse;
  }

  lemma AuthorReplySize(a: AuthorReply)
    requires AuthorReplyFits(a)
    ensures 6 <= |AuthorReplyWire(a)| < 0x1_0000_0000
  {
    AuthorReplyParseInvertsWire(a);
    var fs := [a.serverMsg, a.data] + a.args;
    TotalBound(Lengths(fs), 0xffff);
  }

  /** The client returns exactly the handler's decision, a follow as a failure, if and only if the
      decision fits a reply packet and its arguments are well formed. */
  lemma DecisionReturned(l: Link, ask: AuthorAsk, t: Table, dec: AuthorDecision)
    requires Sendable(l, ask) && AllWellFormed(ask.args)
    requires l.env.handler(l.k).author(Intended(l, ask)) == Some(dec)
    ensures var turn := AskedTurn(l, ask, t);
            && turn.Dispatched?
            && (AuthorResultOf(l, turn.x) == Heard(AuthorResult(if dec.status == 0x21 then 0x10 else dec.status, dec.args, dec.serverMsg), None) <==> Returnable(dec))
  {
    hide AskedTurn, AuthorRequestWire, AuthorRequestParse, AuthorReplyWire, AuthorReplyParse, ParseAll, ParsedFront, RenderAll, AuthorResultOf;
    RequestArrives(l, ask, t);
    AuthorRequestParseInvertsWire(AuthorRequestFor(ask));
    ParseAllInvertsRenderAll(ask.args);
    ParseAllInvertsRenderAll(dec.args);
    FrontOfAll(RenderAll(dec.args));
    var x := AskedTurn(l, ask, t).x;
    var rep := AuthorReplyOf(dec);
    if AuthorReplyFits(rep) {
      AuthorReplyParseInvertsWire(rep);
      AuthorReplySize(rep);
      ReplyHeard(l, x, AuthorReplyWire(rep));
    } else {
      GenericHeard(l, x);
    }
  }
}
