/**
  The client (client/client.go, protocol/session.go, protocol/chap.go, protocol/author.go): a session
  counter, the interactive authentication loop, and a single authorization exchange.
*/
module Client {
  import opened Base
  import opened Arguments
  import opened Bodies
  import opened Framing
  import opened Marshal
  import opened Server

  // ---------------------------------------------------------------- the session counter

  datatype Role = ClientRole | ServerRole

  class Session {
    const id: uint32
    const role: Role
    var nextSeq: nat

    constructor (r: Role, sessionId: uint32)
      ensures id == sessionId && role == r
      ensures nextSeq == if r == ClientRole then 1 else 2
    {
      id, role := sessionId, r;
      nextSeq := if r == ClientRole then 1 else 2;
    }

    /** The number to send next; past 255 the session must be restarted. */
    method NextSeq() returns (r: Result<byte>)
      modifies this
      ensures old(nextSeq) > 255 ==> r == Err(InvalidSeqNo) && nextSeq == old(nextSeq)
      ensures old(nextSeq) <= 255 ==> r == Ok(old(nextSeq)) && nextSeq == old(nextSeq) + 2
    {
      if nextSeq > 255 {
        return Err(InvalidSeqNo);
      }
      r := Ok(nextSeq);
      nextSeq := nextSeq + 2;
    }
  }

  // ---------------------------------------------------------------- authentication

  /** Supplies the user's answer to the k-th prompt, or fails; absent for non-interactive use. */
  datatype Prompt = NoPrompt | Prompt(answer: (nat, AuthenReply) -> Option<Bytes>)

  /** PAP, CHAP, MS-CHAP and MS-CHAPv2 use minor version one. */
  function VersionFor(authenType: byte): byte {
    if authenType in {0x02, 0x03, 0x05, 0x06} then 0xc1 else 0xc0
  }

  function Normalized(r: AuthenReply): AuthenReply {
    if r.status == AUTHEN_FOLLOW then r.(status := AUTHEN_FAIL) else r
  }

  function AuthenHeader(version: byte, id: uint32, seqNo: byte): Header {
    Header(version, AUTHENTICATION, seqNo, 0, id, 0)
  }

  datatype Reaction = Done(reply: Option<AuthenReply>, error: Option<Error>) | Again(heard: AuthenReply, body: Bytes)

  /** What the client makes of a decoded reply. */
  function ReactTo(prompt: Prompt, round: nat, reply: AuthenReply): Reaction {
    var r := Normalized(reply);
    if EndsSession(r.status) then Done(Some(r), None)
    else if r.status == AUTHEN_RESTART then Done(Some(r), Some(InvalidPacket))
    else if prompt.NoPrompt? then Done(Some(r), Some(ContinuationRequired))
    else
      match prompt.answer(round, r)
      case None => Done(Some(r), Some(ContinuationFailed))
      case Some(msg) =>
        var cont := AuthenContinue(msg, [], 0);
        if AuthenContinueFits(cont) then Again(r, AuthenContinueWire(cont)) else Done(Some(r), Some(InvalidLength))
  }

  /** What the client makes of the packet it reads in a round. */
  function React(prompt: Prompt, round: nat, p: Packet): Reaction {
    if p.hdr.length == 0 then Done(None, Some(InvalidPacket))
    else
      match AuthenReplyParse(p.body)
      case Err(e) => Done(None, Some(e))
      case Ok(reply) => ReactTo(prompt, round, reply)
  }

  datatype ClientRun = ClientRun(packets: seq<Packet>, reply: Option<AuthenReply>, error: Option<Error>, nextSeq: nat, rest: Bytes)

  /** The loop from the point where `body` is to be sent, with all replies waiting in `input`. */
  function Talk(key: Key, version: byte, id: uint32, prompt: Prompt, round: nat, nextSeq: nat, body: Bytes, prev: Option<AuthenReply>, input: Bytes): ClientRun
    decreases 257 - nextSeq
  {
    if nextSeq > 255 then ClientRun([], prev, Some(InvalidSeqNo), nextSeq, input)
    else
      var p := Packet(AuthenHeader(version, id, nextSeq), body);
      match ReadFrame(key, input)
      case Stopped(e, rest) => ClientRun([p], None, Some(e), nextSeq + 2, rest)
      case Got(q, rest) =>
        match React(prompt, round, q)
        case Done(reply, error) => ClientRun([p], reply, error, nextSeq + 2, rest)
        case Again(r, next) =>
          var run := Talk(key, version, id, prompt, round + 1, nextSeq + 2, next, Some(r), rest);
          run.(packets := [p] + run.packets)
  }

  /** A client sends at most 128 packets, numbered 1, 3, 5, ... */
  lemma {:induction false} TalkNumbersPackets(key: Key, version: byte, id: uint32, prompt: Prompt, round: nat, nextSeq: nat, body: Bytes, prev: Option<AuthenReply>, input: Bytes)
    ensures var ps := Talk(key, version, id, prompt, round, nextSeq, body, prev, input).packets;
            && (nextSeq <= 257 ==> 2 * |ps| + nextSeq <= 257)
            && forall i | 0 <= i < |ps| :: ps[i].hdr.seqNo == nextSeq + 2 * i && ps[i].hdr.sessionId == id && ps[i].hdr.version == version
    decreases 257 - nextSeq
  {
    hide ReadFrame, React;
    if nextSeq <= 255 {
      match ReadFrame(key, input)
      case Stopped(_, _) =>
      case Got(q, rest) =>
        match React(prompt, round, q)
        case Done(_, _) =>
        case Again(r, next) =>
          TalkNumbersPackets(key, version, id, prompt, round + 1, nextSeq + 2, next, Some(r), rest);
    }
  }

  /** Every packet of a login is an authentication packet with no flags, and the first carries the START. */
  lemma {:induction false} TalkSends(key: Key, version: byte, id: uint32, prompt: Prompt, round: nat, nextSeq: nat, body: Bytes, prev: Option<AuthenReply>, input: Bytes)
    ensures var ps := Talk(key, version, id, prompt, round, nextSeq, body, prev, input).packets;
            && (ps != [] ==> ps[0].body == body)
            && forall i | 0 <= i < |ps| :: ps[i].hdr.ptype == 0x01 && ps[i].hdr.flags == 0
    decreases 257 - nextSeq
  {
    hide ReadFrame, React;
    if nextSeq <= 255 {
      match ReadFrame(key, input)
      case Stopped(_, _) =>
      case Got(q, rest) =>
        match React(prompt, round, q)
        case Done(_, _) =>
        case Again(r, next) =>
          TalkSends(key, version, id, prompt, round + 1, nextSeq + 2, next, Some(r), rest);
    }
  }

  /** The major version is 12; the minor version is 1 for PAP, CHAP, MS-CHAP and MS-CHAPv2, else 0. */
  lemma VersionIs(authenType: byte)
    ensures VersionFor(authenType) / 16 == 0xc
    ensures VersionFor(authenType) % 16 == if authenType == 2 || authenType == 3 || authenType == 5 || authenType == 6 then 1 else 0
    ensures ValidVersion(VersionFor(authenType))
  {
  }

  // ---------------------------------------------------------------- authorization

  datatype AuthorAsk = AuthorAsk(
    method_: byte, privLvl: byte, authenType: byte, service: byte,
    user: Bytes, port: Bytes, remAddr: Bytes, args: seq<Argument>)

  datatype AuthorResult = AuthorResult(status: byte, args: seq<Argument>, serverMsg: Bytes)

  const DEFAULT_VERSION: byte := 0xc0

  function AuthorRequestFor(ask: AuthorAsk): AuthorRequest {
    AuthorRequest(ask.method_, ask.privLvl, ask.authenType, ask.service, ask.user, ask.port, ask.remAddr, RenderAll(ask.args))
  }

  function AuthorHeader(id: uint32, seqNo: byte): Header {
    Header(DEFAULT_VERSION, AUTHORIZATION, seqNo, 0, id, 0)
  }

  /** A follow is treated as a failure. */
  function NormalizedAuthor(status: byte): byte {
    if status == AUTHOR_FOLLOW then AUTHOR_FAIL else status
  }

  /** What an authorization returns: a result and perhaps an error. */
  datatype Heard = Heard(result: AuthorResult, error: Option<Error>)

  function Failed(e: Error): Heard {
    Heard(AuthorResult(0, [], []), Some(e))
  }

  /** A decoded reply: its arguments, up to the first that does not parse. */
  function HeardReply(reply: AuthorReply): Heard {
    Heard(AuthorResult(NormalizedAuthor(reply.status), ParsedFront(reply.args), reply.serverMsg),
          match ParseAll(reply.args) case Ok(_) => None case Err(e) => Some(e))
  }

  /** What the client makes of the reply to an authorization request. */
  function HearAuthor(r: Read): Heard {
    match r
    case Stopped(e, _) => Failed(e)
    case Got(p, _) =>
      if p.hdr.length == 0 then Failed(InvalidPacket)
      else
        match AuthorReplyParse(p.body)
        case Err(e) => Failed(e)
        case Ok(reply) => HeardReply(reply)
  }

  // ---------------------------------------------------------------- accounting

  datatype AcctAsk = AcctAsk(
    flags: byte, method_: byte, privLvl: byte, authenType: byte, service: byte,
    user: Bytes, port: Bytes, remAddr: Bytes, args: seq<Argument>)

  datatype AcctResult = AcctResult(status: byte, serverMsg: Bytes)

  function AcctRequestFor(ask: AcctAsk): AcctRequest {
    AcctRequest(ask.flags, ask.method_, ask.privLvl, ask.authenType, ask.service, ask.user, ask.port, ask.remAddr, RenderAll(ask.args))
  }

  function AcctHeader(id: uint32, seqNo: byte): Header {
    Header(DEFAULT_VERSION, ACCOUNTING, seqNo, 0, id, 0)
  }

  /** A follow is treated as an error. */
  function NormalizedAcct(status: byte): byte {
    if status == ACCT_FOLLOW then ACCT_ERROR else status
  }

  /** What the client makes of the reply to an accounting request. */
  function HearAcct(r: Read): Result<AcctResult> {
    match r
    case Stopped(e, _) => Err(e)
    case Got(p, _) =>
      if p.hdr.length == 0 then Err(InvalidPacket)
      else
        match AcctReplyParse(p.body)
        case Err(e) => Err(e)
        case Ok(reply) => Ok(AcctResult(NormalizedAcct(reply.status), reply.serverMsg))
  }

  // ---------------------------------------------------------------- the client

  class Client {
    const conn: Conn
    const sess: Session

    constructor (c: Conn, sessionId: uint32)
      ensures conn == c && fresh(sess)
      ensures sess.id == sessionId && sess.nextSeq == 1
    {
      conn := c;
      sess := new Session(ClientRole, sessionId);
    }

    /** Writes a packet with the next number of the session. */
    method Send(version: byte, ptype: byte, body: Bytes) returns (e: Option<Error>)
      modifies conn`output, sess
      ensures old(sess.nextSeq) > 255 ==> e == Some(InvalidSeqNo) && sess.nextSeq == old(sess.nextSeq) && conn.output == old(conn.output)
      ensures old(sess.nextSeq) <= 255 ==>
                && e == None && sess.nextSeq == old(sess.nextSeq) + 2
                && conn.output == old(conn.output) + Frame(conn.key, Header(version, ptype, old(sess.nextSeq), 0, sess.id, 0), body)
    {
      var seq_ := sess.NextSeq();
      if seq_.Err? {
        return Some(seq_.error);
      }
      conn.WritePacket(Header(version, ptype, seq_.value, 0, sess.id, 0), body);
      return None;
    }

    /** The interactive exchange: START, then a CONTINUE for every reply that asks for more. */
    method Authenticate(req: AuthenStart, prompt: Prompt) returns (reply: Option<AuthenReply>, error: Option<Error>)
      modifies conn, sess
      ensures !AuthenStartFits(req) ==>
                && reply == None && error == Some(InvalidLength) && sess.nextSeq == old(sess.nextSeq)
                && conn.output == old(conn.output) && conn.input == old(conn.input)
      ensures AuthenStartFits(req) ==>
                var run := Talk(conn.key, VersionFor(req.authenType), sess.id, prompt, 0, old(sess.nextSeq), AuthenStartWire(req), None, old(conn.input));
                && reply == run.reply && error == run.error
                && sess.nextSeq == run.nextSeq && conn.input == run.rest
                && conn.output == old(conn.output) + FrameAll(conn.key, run.packets)
    {
      hide ReadFrame, Frame, FrameAll, React;
      var version := VersionFor(req.authenType);
      var sb := MarshalAuthenStart(req);
      if sb.Err? {
        return None, Some(sb.error);
      }
      ghost var whole := Talk(conn.key, version, sess.id, prompt, 0, sess.nextSeq, sb.value, None, conn.input);
      ghost var sent: seq<Packet> := [];
      var body := sb.value;
      var round := 0;
      reply := None;
      NothingSent(conn.key);
      while true
        invariant whole == AfterSending(sent, Talk(conn.key, version, sess.id, prompt, round, sess.nextSeq, body, reply, conn.input))
        invariant conn.output == old(conn.output) + FrameAll(conn.key, sent)
        decreases 257 - sess.nextSeq
      {
        ghost var p := Packet(AuthenHeader(version, sess.id, if sess.nextSeq > 255 then 0 else sess.nextSeq), body);
        SendingOne(conn.key, sent, p);
        error := Send(version, AUTHENTICATION, body);
        if error.Some? {
          return;
        }
        sent := sent + [p];
        var r := conn.ReadPacket();
        if r.Err? {
          return None, Some(r.error);
        }
        var reaction := Consider(r.value, prompt, round);
        if reaction.Done? {
          return reaction.reply, reaction.error;
        }
        reply, body := Some(reaction.heard), reaction.body;
        round := round + 1;
      }
    }

    /** Decodes a reply and decides whether to go on. */
    method Consider(p: Packet, prompt: Prompt, round: nat) returns (r: Reaction)
      ensures r == React(prompt, round, p)
    {
      hide AuthenReplyParse, AuthenContinueWire;
      if p.hdr.length == 0 {
        return Done(None, Some(InvalidPacket));
      }
      var decoded := new Ref(AuthenReply(0, 0, [], []));
      var e := UnmarshalAuthenReply(decoded, p.body);
      if e.Some? {
        return Done(None, e);
      }
      var heard := Normalized(decoded.value);
      if EndsSession(heard.status) {
        return Done(Some(heard), None);
      }
      if heard.status == AUTHEN_RESTART {
        return Done(Some(heard), Some(InvalidPacket));
      }
      if prompt.NoPrompt? {
        return Done(Some(heard), Some(ContinuationRequired));
      }
      var msg := prompt.answer(round, heard);
      if msg.None? {
        return Done(Some(heard), Some(ContinuationFailed));
      }
      var cb := MarshalAuthenContinue(AuthenContinue(msg.value, [], 0));
      if cb.Err? {
        return Done(Some(heard), Some(cb.error));
      }
      return Again(heard, cb.value);
    }

    /** A single authorization request and its reply. */
    method Authorize(ask: AuthorAsk) returns (r: Heard)
      modifies conn, sess
      ensures match AuthorRequestOutcome(AuthorRequestFor(ask))
              case Err(e) =>
                r == Failed(e) && conn.output == old(conn.output) && conn.input == old(conn.input) && sess.nextSeq == old(sess.nextSeq)
              case Ok(body) =>
                if old(sess.nextSeq) > 255 then
                  && r == Failed(InvalidSeqNo) && conn.output == old(conn.output) && conn.input == old(conn.input)
                  && sess.nextSeq == old(sess.nextSeq)
                else
                  && r == HearAuthor(ReadFrame(conn.key, old(conn.input)))
                  && conn.output == old(conn.output) + Frame(conn.key, AuthorHeader(sess.id, old(sess.nextSeq)), body)
                  && conn.input == ReadFrame(conn.key, old(conn.input)).rest && sess.nextSeq == old(sess.nextSeq) + 2
    {
      hide ReadFrame, Frame, AuthorReplyParse, ParseAll, ParsedFront, AuthorRequestOutcome, RenderAll;
      var args := RenderArguments(ask.args);
      var sb := MarshalAuthorRequest(AuthorRequest(ask.method_, ask.privLvl, ask.authenType, ask.service, ask.user, ask.port, ask.remAddr, args));
      if sb.Err? {
        return Failed(sb.error);
      }
      var e := Send(DEFAULT_VERSION, AUTHORIZATION, sb.value);
      if e.Some? {
        return Failed(e.value);
      }
      var p := conn.ReadPacket();
      if p.Err? {
        return Failed(p.error);
      }
      if p.value.hdr.length == 0 {
        return Failed(InvalidPacket);
      }
      var reply := new Ref(AuthorReply(0, [], [], []));
      e := UnmarshalAuthorReply(reply, p.value.body);
      if e.Some? {
        return Failed(e.value);
      }
      var status := NormalizedAuthor(reply.value.status);
      var parsed, front := ParseArguments(reply.value.args);
      if parsed.Err? {
        return Heard(AuthorResult(status, front, reply.value.serverMsg), Some(parsed.error));
      }
      return Heard(AuthorResult(status, front, reply.value.serverMsg), None);
    }

    /** A single accounting request and its reply. */
    method Account(ask: AcctAsk) returns (r: Result<AcctResult>)
      modifies conn, sess
      ensures match AcctRequestOutcome(AcctRequestFor(ask))
              case Err(e) =>
                r == Err(e) && conn.output == old(conn.output) && conn.input == old(conn.input) && sess.nextSeq == old(sess.nextSeq)
              case Ok(body) =>
                if old(sess.nextSeq) > 255 then
                  && r == Err(InvalidSeqNo) && conn.output == old(conn.output) && conn.input == old(conn.input)
                  && sess.nextSeq == old(sess.nextSeq)
                else
                  && r == HearAcct(ReadFrame(conn.key, old(conn.input)))
                  && conn.output == old(conn.output) + Frame(conn.key, AcctHeader(sess.id, old(sess.nextSeq)), body)
                  && conn.input == ReadFrame(conn.key, old(conn.input)).rest && sess.nextSeq == old(sess.nextSeq) + 2
    {
      hide ReadFrame, Frame, AcctReplyParse, AcctRequestOutcome, RenderAll;
      var args := RenderArguments(ask.args);
      var sb := MarshalAcctRequest(AcctRequest(ask.flags, ask.method_, ask.privLvl, ask.authenType, ask.service, ask.user, ask.port, ask.remAddr, args));
      if sb.Err? {
        return Err(sb.error);
      }
      var e := Send(DEFAULT_VERSION, ACCOUNTING, sb.value);
      if e.Some? {
        return Err(e.value);
      }
      var p := conn.ReadPacket();
      if p.Err? {
        return Err(p.error);
      }
      if p.value.hdr.length == 0 {
        return Err(InvalidPacket);
      }
      var reply := new Ref(AcctReply(0, [], []));
      e := UnmarshalAcctReply(reply, p.value.body);
      if e.Some? {
        return Err(e.value);
      }
      return Ok(AcctResult(NormalizedAcct(reply.value.status), reply.value.serverMsg));
    }
  }

  function AfterSending(sent: seq<Packet>, run: ClientRun): ClientRun {
    run.(packets := sent + run.packets)
  }

  lemma NothingSent(key: Key)
    ensures FrameAll(key, []) == []
    ensures forall run :: AfterSending([], run) == run
  {
  }

  lemma SendingOne(key: Key, sent: seq<Packet>, p: Packet)
    ensures FrameAll(key, sent + [p]) == FrameAll(key, sent) + Frame(key, p.hdr, p.body)
    ensures forall run: ClientRun {:trigger AfterSending(sent + [p], run)} ::
              AfterSending(sent, run.(packets := [p] + run.packets)) == AfterSending(sent + [p], run)
    ensures forall run: ClientRun {:trigger AfterSending(sent, run)} :: run.packets == [p] ==> AfterSending(sent, run).packets == sent + [p]
    ensures sent + [] == sent
  {
    hide Frame;
    FrameAllAppend(key, sent, [p]);
    assert FrameAll(key, [p]) == Frame(key, p.hdr, p.body) + FrameAll(key, [p][1..]);
    assert [p][1..] == [] && FrameAll(key, []) == [];
    forall run: ClientRun
      ensures AfterSending(sent, run.(packets := [p] + run.packets)) == AfterSending(sent + [p], run)
    {
      assert sent + ([p] + run.packets) == sent + [p] + run.packets;
    }
  }
}
