/**
  A client's interactive login against the server, byte for byte: each packet the client frames is read
  by the server's loop, each reply the server frames is read by the client's loop
  (client/client.go, server/server.go, transport/conn.go).

  Other clients' packets and the sweeper may change the shared table between the packets of the login,
  as long as the session is still there, with its START and its number, when its next packet arrives.
*/
module Login {
  import opened Base
  import opened Layout
  import opened Bodies
  import opened Framing
  import opened Sessions
  import opened Server
  import opened SessionSafety
  import opened Connection
  import opened Client

  datatype Setting = Setting(key: Key, allow: bool, remote: Bytes, env: Env, prompt: Prompt, version: byte, id: uint32)

  /** The packet sent, what the server did with it, and what the client then read. */
  datatype Round = Round(sent: Packet, turn: Turn, seen: Read)

  datatype Dialogue = Dialogue(rounds: seq<Round>, reply: Option<AuthenReply>, error: Option<Error>, table: Table)

  /** The bytes the server writes in a turn. */
  function Back(key: Key, turn: Turn): Bytes {
    match turn
    case Dispatched(x, _, _, _) => Written(key, x)
    case Ended(refused, _, _) => if refused == [] then [] else Written(key, refused[0])
  }

  function Exchanged(s: Setting, k: nat, connFlags: Option<byte>, p: Packet, t: Table): Round {
    var turn := TakeTurn(s.allow, s.key, s.remote, s.env, k, connFlags, t, Frame(s.key, p.hdr, p.body));
    Round(p, turn, ReadFrame(s.key, Back(s.key, turn)))
  }

  function TableAfter(r: Round, t: Table): Table {
    if r.turn.Dispatched? then r.turn.table else t
  }

  function FlagsAfter(r: Round, connFlags: Option<byte>): Option<byte> {
    if r.turn.Dispatched? then Some(r.turn.x.request.hdr.flags) else connFlags
  }

  /** The dialogue from the point where the client is about to send `body` as its k-th packet. */
  function Converse(s: Setting, k: nat, connFlags: Option<byte>, body: Bytes, prev: Option<AuthenReply>, t: Table): Dialogue
    decreases 128 - k
  {
    if 2 * k + 1 > 255 then Dialogue([], prev, Some(InvalidSeqNo), t)
    else
      var r := Exchanged(s, k, connFlags, Packet(AuthenHeader(s.version, s.id, 2 * k + 1), body), t);
      var t' := TableAfter(r, t);
      match r.seen
      case Stopped(e, _) => Dialogue([r], None, Some(e), t')
      case Got(q, _) =>
        match React(s.prompt, k, q)
        case Done(reply, error) => Dialogue([r], reply, error, t')
        case Again(heard, next) =>
          var d := Converse(s, k + 1, FlagsAfter(r, connFlags), next, Some(heard), t');
          d.(rounds := [r] + d.rounds)
  }

  /** The login of a fresh client. */
  function FreshLogin(s: Setting, start: AuthenStart, t: Table): Dialogue
    requires AuthenStartFits(start)
  {
    Converse(s, 0, None, AuthenStartWire(start), None, t)
  }

  /** The reply and the CONTINUE with which the dialogue goes on after a round, if it does. */
  function Onward(s: Setting, k: nat, r: Round): Option<(AuthenReply, Bytes)> {
    match r.seen
    case Stopped(_, _) => None
    case Got(q, _) =>
      match React(s.prompt, k, q)
      case Done(_, _) => None
      case Again(heard, next) => Some((heard, next))
  }

  function Opening(s: Setting, k: nat, body: Bytes): Packet
    requires k < 128
  {
    Packet(AuthenHeader(s.version, s.id, 2 * k + 1), body)
  }

  // ---------------------------------------------------------------- one round, server side

  function LoginFlags(mode: Mode): byte {
    if mode == Tls then 1 else 0
  }

  /** The CONTINUE carried by the k-th packet; the first packet is the START. */
  function ContinueIn(k: nat, body: Bytes): Option<AuthenContinue> {
    if k == 0 then None
    else match AuthenContinueParse(body) case Ok(c) => Some(c) case Err(_) => None
  }

  /** The session `id`, if stored, is still stored with the same START and number. */
  predicate Keeps(before: Table, after: Table, id: uint32) {
    id in before ==>
      && id in after
      && after[id].start == before[id].start
      && after[id].lastOutboundSeq == before[id].lastOutboundSeq
  }

  /** What others do before the k-th packet does not take the session away; the START needs none. */
  predicate Kept(s: Setting, k: nat, t: Table) {
    k > 0 ==> Keeps(t, s.env.others(k, t), s.id)
  }

  /** Whenever a CONTINUE of the login arrives, what others did has left its session in place. */
  predicate Undisturbed(s: Setting, k: nat, connFlags: Option<byte>, body: Bytes, t: Table)
    decreases 128 - k
  {
    k < 128 ==>
      && Kept(s, k, t)
      && var r := Exchanged(s, k, connFlags, Opening(s, k, body), t);
         match Onward(s, k, r)
         case None => true
         case Some((_, next)) => Undisturbed(s, k + 1, FlagsAfter(r, connFlags), next, TableAfter(r, t))
  }

  lemma UndisturbedStep(s: Setting, k: nat, connFlags: Option<byte>, body: Bytes, t: Table)
    requires k < 128 && Undisturbed(s, k, connFlags, body, t)
    ensures var r := Exchanged(s, k, connFlags, Opening(s, k, body), t);
            && Kept(s, k, t)
            && match Onward(s, k, r)
               case None => true
               case Some((_, next)) => Undisturbed(s, k + 1, FlagsAfter(r, connFlags), next, TableAfter(r, t))
  {
  }

  /** The server's expectations when the k-th packet of the login arrives. */
  predicate Expecting(s: Setting, start: AuthenStart, k: nat, connFlags: Option<byte>, body: Bytes, t: Table) {
    if k == 0 then
      connFlags == None && AuthenStartFits(start) && body == AuthenStartWire(start)
    else
      && connFlags == Some(LoginFlags(s.key.mode))
      && s.id in t && t[s.id].start == start && t[s.id].lastOutboundSeq == 2 * k
      && AuthenContinueParse(body).Ok?
  }

  function CallIn(s: Setting, start: AuthenStart, k: nat, body: Bytes): Call
    requires k < 128
  {
    AuthenCall(AuthenContext(s.id, 2 * k + 1, start, s.remote), ContinueIn(k, body))
  }

  function AnswerIn(s: Setting, start: AuthenStart, k: nat, body: Bytes): Option<AuthenReply>
    requires k < 128
  {
    s.env.handler(k).authen(CallIn(s, start, k, body).authen, CallIn(s, start, k, body).cont)
  }

  /** Any packet the server expects is handed to the handler, with the START of this login, and what
      is left in the table is decided by the handler's answer. */
  lemma StepAccepts(s: Setting, start: AuthenStart, k: nat, connFlags: Option<byte>, body: Bytes, t: Table)
    requires k < 128 && Expecting(s, start, k, connFlags, body, t)
    ensures var hdr := AuthenHeader(s.version, s.id, 2 * k + 1);
            var p := Packet(Sealed(s.key, hdr, body), body);
            var o, answer := Step(t, p, s.remote, s.env.handler(k), s.env.times(k)), AnswerIn(s, start, k, body);
            && o.call == Some(CallIn(s, start, k, body))
            && o.reply == AuthenReplyTo(answer)
            && (s.id in o.table <==> answer.Some? && !EndsSession(answer.value.status))
            && (s.id in o.table ==>
                  && o.table[s.id].start == start && o.table[s.id].lastOutboundSeq == (2 * k + 2) % 256
                  && o.table[s.id].lastActive == s.env.times(k).answered)
  {
    hide AuthenStartWire, AuthenStartParse, AuthenContinueParse, AuthenReplyTo;
    if k == 0 {
      AuthenStartParseInvertsWire(start);
    }
  }

  lemma StillExpecting(s: Setting, start: AuthenStart, k: nat, connFlags: Option<byte>, body: Bytes, t: Table, u: Table)
    requires Expecting(s, start, k, connFlags, body, t) && (k > 0 ==> Keeps(t, u, s.id))
    ensures Expecting(s, start, k, connFlags, body, u)
  {
  }

  /** The server takes up every packet of the login that fits a frame. */
  lemma TurnAccepts(s: Setting, start: AuthenStart, k: nat, connFlags: Option<byte>, body: Bytes, t: Table)
    requires k < 128 && Expecting(s, start, k, connFlags, body, t)
    requires ValidVersion(s.version) && Kept(s, k, t)
    ensures var p := Packet(AuthenHeader(s.version, s.id, 2 * k + 1), body);
            var turn, answer := Exchanged(s, k, connFlags, p, t).turn, AnswerIn(s, start, k, body);
            && (turn.Dispatched? <==> !s.env.cancelled(k) && |body| <= MAX_PACKET_SIZE)
            && (turn.Ended? ==> turn.refused == [])
            && (turn.Dispatched? ==>
                  && turn.call == Some(CallIn(s, start, k, body))
                  && turn.x.request == Packet(Sealed(s.key, p.hdr, body), body)
                  && turn.x.request.hdr.flags == LoginFlags(s.key.mode)
                  && turn.x.reply == AuthenReplyTo(answer)
                  && (s.id in turn.table <==> answer.Some? && !EndsSession(answer.value.status))
                  && (s.id in turn.table ==>
                        && turn.table[s.id].start == start && turn.table[s.id].lastOutboundSeq == (2 * k + 2) % 256
                        && turn.table[s.id].lastActive == s.env.times(k).answered))
  {
    hide Step, Frame, ReadFrame, Back, AuthenReplyTo, AuthenStartWire, AuthenContinueParse;
    var hdr := AuthenHeader(s.version, s.id, 2 * k + 1);
    var u := s.env.others(k, t);
    StillExpecting(s, start, k, connFlags, body, t, u);
    StepAccepts(s, start, k, connFlags, body, u);
    assert Frame(s.key, hdr, body) + [] == Frame(s.key, hdr, body);
    if |body| <= MAX_PACKET_SIZE {
      FrameReadsBack(s.key, hdr, body, []);
    } else {
      ExpectedSize(s, start, k, connFlags, body, t);
      OversizeStops(s.key, hdr, body, []);
    }
  }

  lemma ExpectedSize(s: Setting, start: AuthenStart, k: nat, connFlags: Option<byte>, body: Bytes, t: Table)
    requires Expecting(s, start, k, connFlags, body, t)
    ensures |body| <= 131075
  {
    hide AuthenStartWire;
    if k == 0 {
      AuthenStartParseInvertsWire(start);
    }
  }

  /** A body too long for a frame, but not for a length field, stops the reader. */
  lemma OversizeStops(k: Key, h: Header, body: Bytes, tail: Bytes)
    requires ValidVersion(h.version) && MAX_PACKET_SIZE < |body| < 0x1_0000_0000
    ensures ReadFrame(k, Frame(k, h, body) + tail).Stopped? && ReadFrame(k, Frame(k, h, body) + tail).error == InvalidLength
  {
    var s := Sealed(k, h, body);
    var input := Frame(k, h, body) + tail;
    assert input[..HEADER_LENGTH] == HeaderWire(s) + [];
    HeaderParseInvertsWire(s, []);
  }

  // ---------------------------------------------------------------- one round, client side

  /** The reply that carries an answer: a failed handler is reported as an error. */
  function Reported(answer: Option<AuthenReply>): AuthenReply {
    if answer.Some? then answer.value else AuthenReply(AUTHEN_ERROR, 0, [], [])
  }

  predicate Reportable(answer: Option<AuthenReply>) {
    var r := Reported(answer);
    AuthenReplyFits(r) && 6 + |r.serverMsg| + |r.data| <= MAX_PACKET_SIZE
  }

  /** The client hears exactly what the handler answered, whenever that fits a reply packet. */
  lemma ClientHears(key: Key, x: Exchange, answer: Option<AuthenReply>, prompt: Prompt, k: nat)
    requires x.reply == AuthenReplyTo(answer) && ValidVersion(x.request.hdr.version)
    ensures var seen := ReadFrame(key, Written(key, x));
            if Reportable(answer)
            then seen.Got? && seen.rest == [] && React(prompt, k, seen.packet) == ReactTo(prompt, k, Reported(answer))
            else seen.Stopped? || (seen.rest == [] && React(prompt, k, seen.packet) == Done(None, Some(InvalidPacket)))
  {
    hide Frame, ReadFrame, ReactTo, AuthenReplyParse, AuthenReplyWire;
    var hdr := ReplyHeader(x.request.hdr);
    var r := Reported(answer);
    if AuthenReplyFits(r) {
      var body := AuthenReplyWire(r);
      AuthenReplyParseInvertsWire(r);
      assert x.reply == Typed(body);
      assert Frame(key, hdr, body) + [] == Frame(key, hdr, body);
      if |body| <= MAX_PACKET_SIZE {
        FrameReadsBack(key, hdr, body, []);
      } else {
        OversizeStops(key, hdr, body, []);
      }
    } else {
      FrameReadsBack(key, hdr, [], []);
      assert Frame(key, hdr, []) + [] == Frame(key, hdr, []);
    }
  }

  // ---------------------------------------------------------------- the whole login

  /** The j-th packet is numbered 2j+1; unless the server was cancelled or the body is too long for a
      frame it is accepted, and the handler sees the original START. */
  predicate Accepted(s: Setting, start: AuthenStart, j: nat, r: Round) {
    && j < 128
    && r.sent.hdr == AuthenHeader(s.version, s.id, 2 * j + 1)
    && (r.turn.Dispatched? <==> !s.env.cancelled(j) && |r.sent.body| <= MAX_PACKET_SIZE)
    && (r.turn.Dispatched? ==> r.turn.call == Some(CallIn(s, start, j, r.sent.body)))
  }

  /** What the user answers when the client goes on after the j-th reply: it goes on when the reply is
      neither final (pass, fail, error, follow) nor a restart, there is a prompt, and the prompt yields an
      answer that a CONTINUE can carry. */
  function UserAnswer(prompt: Prompt, j: nat, reply: AuthenReply): Option<Bytes> {
    if reply.status in {0x01, 0x02, 0x07, 0x21, 0x06} || prompt.NoPrompt? then None
    else
      match prompt.answer(j, reply)
      case None => None
      case Some(msg) => if |msg| <= 0xffff then Some(msg) else None
  }

  /** The next packet is a CONTINUE with the user's answer to the handler's reply as its message, and that
      is what the handler is asked about next. */
  predicate Linked(s: Setting, start: AuthenStart, j: nat, r: Round, next: Round) {
    && j < 127
    && r.turn.Dispatched?
    && var answer := AnswerIn(s, start, j, r.sent.body);
       && answer.Some?
       && var msg := UserAnswer(s.prompt, j, answer.value);
          && msg.Some?
          && AuthenContinueParse(next.sent.body) == Ok(AuthenContinue(msg.value, [], 0))
          && (next.turn.Dispatched? ==>
                next.turn.call == Some(AuthenCall(AuthenContext(s.id, 2 * j + 3, start, s.remote), Some(AuthenContinue(msg.value, [], 0)))))
  }

  /** What the client returns after the j-th reply when it does not go on. */
  function ClientResult(prompt: Prompt, j: nat, reply: AuthenReply): (Option<AuthenReply>, Option<Error>) {
    if reply.status in {0x01, 0x02, 0x07} then (Some(reply), None)
    else if reply.status == 0x21 then (Some(reply.(status := 0x02)), None)
    else if reply.status == 0x06 then (Some(reply), Some(InvalidPacket))
    else if prompt.NoPrompt? then (Some(reply), Some(ContinuationRequired))
    else
      match prompt.answer(j, reply)
      case None => (Some(reply), Some(ContinuationFailed))
      case Some(msg) => (Some(reply), Some(if |msg| > 0xffff then InvalidLength else InvalidSeqNo))
  }

  /** How the login ends. The server holds the session exactly when the handler's last answer was neither a
      pass nor a fail nor an error. When that answer could be reported the client does not go on, or it has
      used up its numbers, and its result is that of the answer; otherwise it fails without a reply. */
  predicate Concluded(s: Setting, start: AuthenStart, j: nat, last: Round, d: Dialogue) {
    && j < 128
    && var answer := AnswerIn(s, start, j, last.sent.body);
       && (last.turn.Dispatched? ==> (s.id in d.table <==> answer.Some? && answer.value.status !in {0x01, 0x02, 0x07}))
       && (if last.turn.Dispatched? && Reportable(answer)
           then (UserAnswer(s.prompt, j, Reported(answer)) == None || j == 127)
                && (d.reply, d.error) == ClientResult(s.prompt, j, Reported(answer))
           else d.reply == None && d.error.Some?)
  }

  predicate GoodDialogue(s: Setting, start: AuthenStart, k: nat, d: Dialogue) {
    && k + |d.rounds| <= 128
    && (forall i | 0 <= i < |d.rounds| :: Accepted(s, start, k + i, d.rounds[i]))
    && (forall i | 0 <= i < |d.rounds| - 1 :: Linked(s, start, k + i, d.rounds[i], d.rounds[i + 1]))
    && (d.rounds != [] ==> Concluded(s, start, k + |d.rounds| - 1, d.rounds[|d.rounds| - 1], d))
  }

  lemma OneRound(s: Setting, start: AuthenStart, k: nat, connFlags: Option<byte>, body: Bytes, t: Table)
    requires k < 128 && Expecting(s, start, k, connFlags, body, t)
    requires ValidVersion(s.version) && Kept(s, k, t)
    ensures var r := Exchanged(s, k, connFlags, Packet(AuthenHeader(s.version, s.id, 2 * k + 1), body), t);
            var answer := AnswerIn(s, start, k, body);
            && Accepted(s, start, k, r)
            && r.sent.body == body
            && (r.seen.Got? ==> r.turn.Dispatched? && r.seen.rest == [])
            && (r.turn.Dispatched? ==> FlagsAfter(r, connFlags) == Some(LoginFlags(s.key.mode)))
            && (r.turn.Dispatched? ==> (s.id in TableAfter(r, t) <==> answer.Some? && !EndsSession(answer.value.status)))
            && (r.turn.Dispatched? && s.id in TableAfter(r, t) ==>
                  && TableAfter(r, t)[s.id].start == start && TableAfter(r, t)[s.id].lastOutboundSeq == (2 * k + 2) % 256
                  && TableAfter(r, t)[s.id].lastActive == s.env.times(k).answered)
            && (r.turn.Dispatched? && Reportable(answer) ==>
                  r.seen.Got? && React(s.prompt, k, r.seen.packet) == ReactTo(s.prompt, k, Reported(answer)))
            && (!(r.turn.Dispatched? && Reportable(answer)) ==>
                  r.seen.Stopped? || React(s.prompt, k, r.seen.packet) == Done(None, Some(InvalidPacket)))
  {
    hide TakeTurn, ReadFrame, React, ReactTo, AnswerIn, Reportable, Expecting, Kept, Reported, Frame, CallIn;
    TurnAccepts(s, start, k, connFlags, body, t);
    var r := Exchanged(s, k, connFlags, Packet(AuthenHeader(s.version, s.id, 2 * k + 1), body), t);
    if r.turn.Dispatched? {
      ClientHears(s.key, r.turn.x, AnswerIn(s, start, k, body), s.prompt, k);
    } else {
      EmptyStops(s.key);
    }
  }

  lemma EmptyStops(key: Key)
    ensures ReadFrame(key, []).Stopped?
  {
  }

  /** The client's reaction to a reply: it goes on exactly with the user's answer, in the message field of
      a CONTINUE, and otherwise returns the result of the reply. */
  lemma ReactionFacts(prompt: Prompt, k: nat, reply: AuthenReply)
    ensures var reaction, msg := ReactTo(prompt, k, reply), UserAnswer(prompt, k, reply);
            && (reaction.Again? <==> msg.Some?)
            && (reaction.Done? ==> (reaction.reply, reaction.error) == ClientResult(prompt, k, reply))
            && (reaction.Again? ==>
                  && reaction.heard == reply && reply.status !in {0x01, 0x02, 0x07}
                  && AuthenContinueParse(reaction.body) == Ok(AuthenContinue(msg.value, [], 0))
                  && ClientResult(prompt, k, reply) == (Some(reply), Some(InvalidSeqNo)))
  {
    hide AuthenContinueParse, AuthenContinueWire;
    var msg := UserAnswer(prompt, k, reply);
    if msg.Some? {
      AuthenContinueParseInvertsWire(AuthenContinue(msg.value, [], 0));
    }
  }

  lemma ExtendGood(s: Setting, start: AuthenStart, k: nat, r: Round, d: Dialogue)
    requires Accepted(s, start, k, r)
    requires d.rounds != [] && GoodDialogue(s, start, k + 1, d) && Linked(s, start, k, r, d.rounds[0])
    ensures GoodDialogue(s, start, k, d.(rounds := [r] + d.rounds))
  {
    hide Accepted, Linked, Concluded;
    var rs := [r] + d.rounds;
    forall i | 0 <= i < |rs|
      ensures Accepted(s, start, k + i, rs[i])
    {
      if i > 0 {
        assert Accepted(s, start, k + 1 + (i - 1), d.rounds[i - 1]);
      }
    }
    forall i | 0 <= i < |rs| - 1
      ensures Linked(s, start, k + i, rs[i], rs[i + 1])
    {
      if i > 0 {
        assert Linked(s, start, k + 1 + (i - 1), d.rounds[i - 1], d.rounds[i - 1 + 1]);
      }
    }
    ConcludedIgnoresRounds(s, start, k + |d.rounds|, rs[|rs| - 1], d, d.(rounds := rs));
  }

  lemma ConcludedIgnoresRounds(s: Setting, start: AuthenStart, j: nat, last: Round, d: Dialogue, e: Dialogue)
    requires Concluded(s, start, j, last, d) && e == d.(rounds := e.rounds)
    ensures Concluded(s, start, j, last, e)
  {
  }

  lemma LinkRound(s: Setting, start: AuthenStart, k: nat, r: Round, rest: Dialogue)
    requires k + 1 < 128 && r.turn.Dispatched? && rest.rounds != [] && GoodDialogue(s, start, k + 1, rest)
    requires var reply := Reported(AnswerIn(s, start, k, r.sent.body));
             var msg := UserAnswer(s.prompt, k, reply);
             msg.Some? && AuthenContinueParse(rest.rounds[0].sent.body) == Ok(AuthenContinue(msg.value, [], 0))
    ensures Linked(s, start, k, r, rest.rounds[0])
  {
    hide Concluded, AuthenContinueParse;
    assert Accepted(s, start, k + 1 + 0, rest.rounds[0]);
  }

  /** A dialogue that stops after this round. */
  lemma SingleRound(s: Setting, start: AuthenStart, k: nat, r: Round, d: Dialogue)
    requires Accepted(s, start, k, r) && d.rounds == [r] && Concluded(s, start, k, r, d)
    ensures GoodDialogue(s, start, k, d)
  {
  }

  /** The dialogue is its first round followed, when the client goes on, by a dialogue the server expects. */
  lemma Progress(s: Setting, start: AuthenStart, k: nat, connFlags: Option<byte>, body: Bytes, prev: Option<AuthenReply>, t: Table)
    requires k < 128 && Expecting(s, start, k, connFlags, body, t)
    requires ValidVersion(s.version) && Kept(s, k, t)
    ensures var d, r := Converse(s, k, connFlags, body, prev, t), Exchanged(s, k, connFlags, Opening(s, k, body), t);
            && (r.seen.Got? ==> r.turn.Dispatched? && r.seen.rest == [])
            && (r.turn.Dispatched? ==> |body| <= MAX_PACKET_SIZE)
            && (r.turn.Ended? ==> r.turn.refused == [])
            && match Onward(s, k, r)
               case None => d.rounds == [r] && d.table == TableAfter(r, t)
               case Some((heard, next)) =>
                 && r.turn.Dispatched?
                 && d == (var rest := Converse(s, k + 1, FlagsAfter(r, connFlags), next, Some(heard), TableAfter(r, t)); rest.(rounds := [r] + rest.rounds))
                 && (k + 1 < 128 ==>
                       && Expecting(s, start, k + 1, FlagsAfter(r, connFlags), next, TableAfter(r, t))
                       && TableAfter(r, t)[s.id].lastActive == s.env.times(k).answered)
  {
    hide React, ReactTo, AnswerIn, Reportable, CallIn, Kept, AuthenContinueParse, AuthenStartWire, Exchanged, TableAfter, FlagsAfter;
    OneRound(s, start, k, connFlags, body, t);
    TurnAccepts(s, start, k, connFlags, body, t);
    ReactionFacts(s.prompt, k, Reported(AnswerIn(s, start, k, body)));
  }

  lemma {:induction false} ConverseIsGood(s: Setting, start: AuthenStart, k: nat, connFlags: Option<byte>, body: Bytes, prev: Option<AuthenReply>, t: Table)
    requires k < 128 && Expecting(s, start, k, connFlags, body, t)
    requires ValidVersion(s.version) && Undisturbed(s, k, connFlags, body, t)
    ensures var d := Converse(s, k, connFlags, body, prev, t);
            d.rounds != [] && d.rounds[0].sent.body == body && GoodDialogue(s, start, k, d)
    decreases 128 - k
  {
    hide Exchanged, React, ReactTo, AnswerIn, Reportable, CallIn, Undisturbed, AuthenContinueParse, GoodDialogue, Accepted, TableAfter, FlagsAfter, AuthenStartWire, Concluded, UserAnswer, ClientResult;
    var r := Exchanged(s, k, connFlags, Packet(AuthenHeader(s.version, s.id, 2 * k + 1), body), t);
    UndisturbedStep(s, k, connFlags, body, t);
    OneRound(s, start, k, connFlags, body, t);
    ReactionFacts(s.prompt, k, Reported(AnswerIn(s, start, k, body)));
    if r.seen.Got? && React(s.prompt, k, r.seen.packet).Again? && k + 1 < 128 {
      var reaction := React(s.prompt, k, r.seen.packet);
      var rest := Converse(s, k + 1, FlagsAfter(r, connFlags), reaction.body, Some(reaction.heard), TableAfter(r, t));
      ConverseIsGood(s, start, k + 1, FlagsAfter(r, connFlags), reaction.body, Some(reaction.heard), TableAfter(r, t));
      LinkRound(s, start, k, r, rest);
      ExtendGood(s, start, k, r, rest);
    } else {
      LastRound(s, start, k, connFlags, body, prev, t);
    }
  }

  /** The dialogue stops when the client does not go on or has no number left. */
  lemma LastRound(s: Setting, start: AuthenStart, k: nat, connFlags: Option<byte>, body: Bytes, prev: Option<AuthenReply>, t: Table)
    requires k < 128 && Expecting(s, start, k, connFlags, body, t)
    requires ValidVersion(s.version) && Kept(s, k, t)
    requires var r := Exchanged(s, k, connFlags, Packet(AuthenHeader(s.version, s.id, 2 * k + 1), body), t);
             r.seen.Got? && React(s.prompt, k, r.seen.packet).Again? ==> k == 127
    ensures var d := Converse(s, k, connFlags, body, prev, t);
            d.rounds != [] && d.rounds[0].sent.body == body && GoodDialogue(s, start, k, d)
  {
    hide Exchanged, React, ReactTo, AnswerIn, Reportable, CallIn, AuthenContinueParse, GoodDialogue, Accepted, FlagsAfter, AuthenStartWire, UserAnswer, ClientResult, Expecting;
    var r := Exchanged(s, k, connFlags, Packet(AuthenHeader(s.version, s.id, 2 * k + 1), body), t);
    var d := Converse(s, k, connFlags, body, prev, t);
    OneRound(s, start, k, connFlags, body, t);
    ReactionFacts(s.prompt, k, Reported(AnswerIn(s, start, k, body)));
    SingleRound(s, start, k, r, d);
  }

  /** A fresh client's login against the server: at most 128 packets, numbered 1, 3, 5, ..., every one
      that reaches the server accepted and put to the handler with the original START, each CONTINUE
      carrying the user's answer to the handler's prompt, and a conclusion both sides agree on. */
  lemma FreshLoginIsGood(s: Setting, start: AuthenStart, t: Table)
    requires AuthenStartFits(start) && ValidVersion(s.version) && Undisturbed(s, 0, None, AuthenStartWire(start), t)
    ensures var d := FreshLogin(s, start, t); d.rounds != [] && GoodDialogue(s, start, 0, d)
  {
    hide Converse, Undisturbed, GoodDialogue, AuthenStartWire, Expecting;
    OpeningExpected(s, start, t);
    ConverseIsGood(s, start, 0, None, AuthenStartWire(start), None, t);
  }

  lemma OpeningExpected(s: Setting, start: AuthenStart, t: Table)
    requires AuthenStartFits(start) && Undisturbed(s, 0, None, AuthenStartWire(start), t)
    ensures Expecting(s, start, 0, None, AuthenStartWire(start), t)
  {
    hide Undisturbed, AuthenStartWire, AuthenStartParse;
    AuthenStartParseInvertsWire(start);
  }

  // ---------------------------------------------------------------- each side's own loop

  function Sent(rs: seq<Round>): (ps: seq<Packet>)
    ensures |ps| == |rs|
  {
    seq(|rs|, i requires 0 <= i < |rs| => rs[i].sent)
  }

  /** Everything the server writes during the login. */
  function Returned(key: Key, rs: seq<Round>): Bytes {
    if rs == [] then [] else Back(key, rs[0].turn) + Returned(key, rs[1..])
  }

  /** What follows a packet does not change how it is read. */
  lemma ReadFrameExtends(key: Key, a: Bytes, b: Bytes)
    requires ReadFrame(key, a).Got?
    ensures ReadFrame(key, a + b) == Got(ReadFrame(key, a).packet, ReadFrame(key, a).rest + b)
  {
    hide Protect, HeaderParse;
    var h := HeaderParse(a[..HEADER_LENGTH]).value;
    assert (a + b)[..HEADER_LENGTH] == a[..HEADER_LENGTH];
    assert (a + b)[HEADER_LENGTH..] == a[HEADER_LENGTH..] + b;
    var rest := a[HEADER_LENGTH..];
    assert (rest + b)[..h.length] == rest[..h.length] && (rest + b)[h.length..] == rest[h.length..] + b;
  }

  /** One round of the client's own loop, with the reply of the round at the front of its input. */
  lemma TalkStep(s: Setting, k: nat, connFlags: Option<byte>, body: Bytes, prev: Option<AuthenReply>, t: Table, tail: Bytes)
    requires k < 128
    requires var r := Exchanged(s, k, connFlags, Opening(s, k, body), t); r.seen.Got? ==> r.seen.rest == []
    ensures var d, r := Converse(s, k, connFlags, body, prev, t), Exchanged(s, k, connFlags, Opening(s, k, body), t);
            var input := Back(s.key, r.turn);
            match Onward(s, k, r)
            case None =>
              var run := Talk(s.key, s.version, s.id, s.prompt, k, 2 * k + 1, body, prev, input);
              run.packets == [Opening(s, k, body)] && run.reply == d.reply && run.error == d.error
            case Some((heard, next)) =>
              var run := Talk(s.key, s.version, s.id, s.prompt, k + 1, 2 * k + 3, next, Some(heard), tail);
              Talk(s.key, s.version, s.id, s.prompt, k, 2 * k + 1, body, prev, input + tail) == run.(packets := [Opening(s, k, body)] + run.packets)
  {
    hide React, ReadFrame, Back, TakeTurn;
    var r := Exchanged(s, k, connFlags, Opening(s, k, body), t);
    if Onward(s, k, r).Some? {
      ReadFrameExtends(s.key, Back(s.key, r.turn), tail);
      assert [] + tail == tail;
    }
  }

  lemma RoundsUnfold(key: Key, r: Round, rs: seq<Round>)
    ensures Sent([r] + rs) == [r.sent] + Sent(rs)
    ensures Returned(key, [r] + rs) == Back(key, r.turn) + Returned(key, rs)
    ensures CallsIn([r] + rs) == (if r.turn.Dispatched? && r.turn.call.Some? then [r.turn.call.value] else []) + CallsIn(rs)
    ensures Returned(key, [r]) == Back(key, r.turn) && Sent([r]) == [r.sent]
    ensures FrameAll(key, Sent([r] + rs)) == Frame(key, r.sent.hdr, r.sent.body) + FrameAll(key, Sent(rs))
  {
    hide Frame, Back;
    assert ([r] + rs)[1..] == rs;
    assert ([r.sent] + Sent(rs))[1..] == Sent(rs);
    assert [r][1..] == [] && Returned(key, []) == [] && Back(key, r.turn) + [] == Back(key, r.turn);
  }

  /** The login, seen from the client: its own loop, given everything the server returns, sends the
      same packets and ends with the same result. */
  lemma {:induction false} ClientSide(s: Setting, start: AuthenStart, k: nat, connFlags: Option<byte>, body: Bytes, prev: Option<AuthenReply>, t: Table)
    requires k < 128 && Expecting(s, start, k, connFlags, body, t)
    requires ValidVersion(s.version) && Undisturbed(s, k, connFlags, body, t)
    ensures var d := Converse(s, k, connFlags, body, prev, t);
            var run := Talk(s.key, s.version, s.id, s.prompt, k, 2 * k + 1, body, prev, Returned(s.key, d.rounds));
            run.packets == Sent(d.rounds) && run.reply == d.reply && run.error == d.error
    decreases 128 - k
  {
    hide Expecting, Undisturbed, Kept, Exchanged, Onward, Returned, Sent, Back, Talk, Converse;
    var r := Exchanged(s, k, connFlags, Opening(s, k, body), t);
    UndisturbedStep(s, k, connFlags, body, t);
    Progress(s, start, k, connFlags, body, prev, t);
    RoundSent(s, k, connFlags, body, t);
    match Onward(s, k, r)
    case None =>
      TalkStep(s, k, connFlags, body, prev, t, []);
      RoundsUnfold(s.key, r, []);
    case Some((heard, next)) =>
      var rest := Converse(s, k + 1, FlagsAfter(r, connFlags), next, Some(heard), TableAfter(r, t));
      TalkStep(s, k, connFlags, body, prev, t, Returned(s.key, rest.rounds));
      RoundsUnfold(s.key, r, rest.rounds);
      if k + 1 < 128 {
        ClientSide(s, start, k + 1, FlagsAfter(r, connFlags), next, Some(heard), TableAfter(r, t));
      } else {
        PastTheLast(s, k + 1, FlagsAfter(r, connFlags), next, Some(heard), TableAfter(r, t), []);
      }
  }

  lemma RoundSent(s: Setting, k: nat, connFlags: Option<byte>, body: Bytes, t: Table)
    requires k < 128
    ensures Exchanged(s, k, connFlags, Opening(s, k, body), t).sent == Opening(s, k, body)
  {
  }

  /** After number 255 neither description sends anything more. */
  lemma PastTheLast(s: Setting, k: nat, connFlags: Option<byte>, body: Bytes, prev: Option<AuthenReply>, t: Table, input: Bytes)
    requires k >= 128
    ensures Converse(s, k, connFlags, body, prev, t) == Dialogue([], prev, Some(InvalidSeqNo), t)
    ensures Talk(s.key, s.version, s.id, s.prompt, k, 2 * k + 1, body, prev, input) == ClientRun([], prev, Some(InvalidSeqNo), 2 * k + 1, input)
    ensures Sent([]) == [] && Returned(s.key, []) == [] && FrameAll(s.key, []) == [] && CallsIn([]) == []
  {
  }

  function CallsIn(rs: seq<Round>): seq<Call> {
    if rs == [] then []
    else (if rs[0].turn.Dispatched? && rs[0].turn.call.Some? then [rs[0].turn.call.value] else []) + CallsIn(rs[1..])
  }

  /** Serving two concatenated inputs when the first is one packet. */
  lemma TurnExtends(s: Setting, k: nat, connFlags: Option<byte>, p: Packet, t: Table, tail: Bytes)
    requires Exchanged(s, k, connFlags, p, t).turn.Dispatched?
    requires Deliverable(p.hdr, p.body)
    ensures TakeTurn(s.allow, s.key, s.remote, s.env, k, connFlags, t, Frame(s.key, p.hdr, p.body) + tail)
         == Exchanged(s, k, connFlags, p, t).turn.(rest := tail)
  {
    hide Frame, ReadFrame, Step;
    FrameReadsBack(s.key, p.hdr, p.body, []);
    assert Frame(s.key, p.hdr, p.body) + [] == Frame(s.key, p.hdr, p.body);
    FrameReadsBack(s.key, p.hdr, p.body, tail);
  }

  lemma ServeNothing(s: Setting, k: nat, connFlags: Option<byte>, t: Table)
    ensures var sv := Serve(s.allow, s.key, s.remote, s.env, k, connFlags, t, []);
            sv.table == t && sv.exchanges == [] && sv.calls == []
  {
  }

  /** One turn of the server's own loop, with the packet of the round at the front of its input. */
  lemma ServeStep(s: Setting, k: nat, connFlags: Option<byte>, p: Packet, t: Table, tail: Bytes)
    requires ValidVersion(p.hdr.version)
    ensures var turn := Exchanged(s, k, connFlags, p, t).turn;
            match turn
            case Ended(refused, stop, rest) =>
              Serve(s.allow, s.key, s.remote, s.env, k, connFlags, t, Frame(s.key, p.hdr, p.body)) == Served(t, refused, [], stop, rest)
            case Dispatched(x, call, t', _) =>
              |p.body| <= MAX_PACKET_SIZE ==>
                Serve(s.allow, s.key, s.remote, s.env, k, connFlags, t, Frame(s.key, p.hdr, p.body) + tail)
                == Prepend([x], Made(call), Serve(s.allow, s.key, s.remote, s.env, k + 1, Some(x.request.hdr.flags), t', tail))
  {
    hide Frame, TakeTurn, ReadFrame, Back;
    var turn := Exchanged(s, k, connFlags, p, t).turn;
    if turn.Dispatched? && |p.body| <= MAX_PACKET_SIZE {
      TurnExtends(s, k, connFlags, p, t, tail);
    }
  }

  /** The reply of a dispatched packet comes before the replies to the packets after it. */
  lemma RepliesUnfold(key: Key, x: Exchange, xs: seq<Exchange>)
    ensures FrameAll(key, Replies([x] + xs)) == Written(key, x) + FrameAll(key, Replies(xs))
  {
    hide Frame;
    var ps := Replies([x] + xs);
    assert ps[1..] == Replies(xs);
  }

  /** The login, seen from the server: its own loop, given everything the client sends, writes the same
      bytes, consults the handler in the same way and leaves the same table. */
  lemma {:induction false} ServerSide(s: Setting, start: AuthenStart, k: nat, connFlags: Option<byte>, body: Bytes, prev: Option<AuthenReply>, t: Table)
    requires k < 128 && Expecting(s, start, k, connFlags, body, t)
    requires ValidVersion(s.version) && Undisturbed(s, k, connFlags, body, t)
    ensures var d := Converse(s, k, connFlags, body, prev, t);
            var sv := Serve(s.allow, s.key, s.remote, s.env, k, connFlags, t, FrameAll(s.key, Sent(d.rounds)));
            && sv.table == d.table
            && sv.calls == CallsIn(d.rounds)
            && FrameAll(s.key, Replies(sv.exchanges)) == Returned(s.key, d.rounds)
    decreases 128 - k
  {
    hide Expecting, Undisturbed, Kept, Exchanged, Onward, Returned, Sent, Serve, Converse, FrameAll, Frame, Replies, Written, CallsIn;
    var p := Opening(s, k, body);
    var r := Exchanged(s, k, connFlags, p, t);
    var d := Converse(s, k, connFlags, body, prev, t);
    UndisturbedStep(s, k, connFlags, body, t);
    Progress(s, start, k, connFlags, body, prev, t);
    RoundSent(s, k, connFlags, body, t);
    PastTheLast(s, 128, None, [], None, t, []);
    NoReplies(s.key);
    match Onward(s, k, r)
    case None =>
      RoundsUnfold(s.key, r, []);
      assert [r] + [] == [r] && Frame(s.key, p.hdr, p.body) + [] == Frame(s.key, p.hdr, p.body);
      ServeStep(s, k, connFlags, p, t, []);
      if r.turn.Dispatched? {
        ServeNothing(s, k + 1, Some(r.turn.x.request.hdr.flags), r.turn.table);
        RepliesUnfold(s.key, r.turn.x, []);
      }
    case Some((heard, next)) =>
      var rest := Converse(s, k + 1, FlagsAfter(r, connFlags), next, Some(heard), TableAfter(r, t));
      RoundsUnfold(s.key, r, rest.rounds);
      ServeStep(s, k, connFlags, p, t, FrameAll(s.key, Sent(rest.rounds)));
      if k + 1 < 128 {
        ServerSide(s, start, k + 1, FlagsAfter(r, connFlags), next, Some(heard), TableAfter(r, t));
      } else {
        PastTheLast(s, k + 1, FlagsAfter(r, connFlags), next, Some(heard), TableAfter(r, t), []);
        ServeNothing(s, k + 1, FlagsAfter(r, connFlags), TableAfter(r, t));
      }
      RepliesUnfold(s.key, r.turn.x, Serve(s.allow, s.key, s.remote, s.env, k + 1, FlagsAfter(r, connFlags), TableAfter(r, t), FrameAll(s.key, Sent(rest.rounds))).exchanges);
  }

  /** The login of a fresh client is what both loops do when each is fed the other's output. */
  lemma LoginIsBothLoops(s: Setting, start: AuthenStart, t: Table)
    requires AuthenStartFits(start) && ValidVersion(s.version) && Undisturbed(s, 0, None, AuthenStartWire(start), t)
    ensures var d := FreshLogin(s, start, t);
            var toClient, toServer := Returned(s.key, d.rounds), FrameAll(s.key, Sent(d.rounds));
            var client := Talk(s.key, s.version, s.id, s.prompt, 0, 1, AuthenStartWire(start), None, toClient);
            var server := Serve(s.allow, s.key, s.remote, s.env, 0, None, t, toServer);
            && FrameAll(s.key, client.packets) == toServer
            && FrameAll(s.key, Replies(server.exchanges)) == toClient
            && client.reply == d.reply && client.error == d.error
            && server.table == d.table && server.calls == CallsIn(d.rounds)
  {
    hide Talk, Serve, Converse, FrameAll, Returned, Sent, Replies, CallsIn, Undisturbed, AuthenStartWire, Expecting;
    OpeningExpected(s, start, t);
    ClientSide(s, start, 0, None, AuthenStartWire(start), None, t);
    ServerSide(s, start, 0, None, AuthenStartWire(start), None, t);
  }

  /** After a login that the client takes to be over, the server still holds the session exactly when
      the handler's last answer was a follow, which the client reports as a failure. */
  lemma HeldOnlyAfterFollow(s: Setting, start: AuthenStart, t: Table)
    requires AuthenStartFits(start) && ValidVersion(s.version) && Undisturbed(s, 0, None, AuthenStartWire(start), t)
    ensures var d := FreshLogin(s, start, t);
            d.error == None ==>
              var n := |d.rounds| - 1;
              && 0 <= n < 128
              && var answer := AnswerIn(s, start, n, d.rounds[n].sent.body);
                 s.id in d.table <==> answer.Some? && answer.value.status == 0x21
  {
    hide Converse, Accepted, Linked, AnswerIn, Reportable;
    FreshLoginIsGood(s, start, t);
  }

  /** A login ends without error exactly when the handler's last answer could be reported and was a pass, a
      fail, an error or a follow, and then with that answer, a follow as a fail. */
  lemma LoginSucceedsIff(s: Setting, start: AuthenStart, t: Table)
    requires AuthenStartFits(start) && ValidVersion(s.version) && Undisturbed(s, 0, None, AuthenStartWire(start), t)
    ensures var d := FreshLogin(s, start, t);
            && 0 < |d.rounds| <= 128
            && var n := |d.rounds| - 1;
               var answer := AnswerIn(s, start, n, d.rounds[n].sent.body);
               && (d.error == None <==>
                     d.rounds[n].turn.Dispatched? && Reportable(answer) && (answer.Some? ==> answer.value.status in {0x01, 0x02, 0x07, 0x21}))
               && (d.error == None && answer.Some? ==>
                     d.reply == Some(if answer.value.status == 0x21 then answer.value.(status := 0x02) else answer.value))
               && (d.error == None && answer.None? ==> d.reply == Some(AuthenReply(0x07, 0, [], [])))
  {
    hide Converse, Accepted, Linked, AnswerIn, Reportable;
    FreshLoginIsGood(s, start, t);
  }

  // ---------------------------------------------------------------- logins among others, with sweeps

  /** An event that does not take a session away that was last active then: a packet that is not an
      authentication packet of the session, or a sweep within the TTL. */
  predicate Harmless(e: Event, id: uint32, active: int, ttl: int) {
    match e
    case Tick(now) => now - active <= ttl
    case Arrive(p, _, _, _) => p.hdr.ptype != AUTHENTICATION || p.hdr.sessionId != id
  }

  predicate AllHarmless(es: seq<Event>, id: uint32, active: int, ttl: int) {
    forall i | 0 <= i < |es| :: Harmless(es[i], id, active, ttl)
  }

  lemma {:induction false} HarmlessEvents(w: World, ttl: int, es: seq<Event>, id: uint32)
    requires id in w.table && AllHarmless(es, id, w.table[id].lastActive, ttl)
    ensures var t := Play(w, ttl, es).table; id in t && t[id] == w.table[id]
  {
    if es != [] {
      hide Step;
      var e := es[|es| - 1];
      HarmlessEvents(w, ttl, es[..|es| - 1], id);
      assert Harmless(e, id, w.table[id].lastActive, ttl);
      if e.Arrive? {
        StepIsolated(Play(w, ttl, es[..|es| - 1]).table, e.p, e.remote, e.h, e.at, id);
      }
    }
  }

  /** Others use other ids, and no sweep between two packets of the login comes more than the TTL after
      the handler's answer to the first of them. */
  ghost predicate Timely(s: Setting, between: nat -> seq<Event>, ttl: int) {
    forall j: nat | j > 0 :: AllHarmless(between(j), s.id, s.env.times(j - 1).answered, ttl)
  }

  lemma KeptByEvents(s: Setting, between: nat -> seq<Event>, ttl: int, k: nat, t: Table)
    requires ActsBy(s.env, between, ttl) && Timely(s, between, ttl)
    requires k > 0 ==> s.id in t && t[s.id].lastActive == s.env.times(k - 1).answered
    ensures Kept(s, k, t)
  {
    if k > 0 {
      hide Play, AllHarmless;
      HarmlessEvents(World(t, []), ttl, between(k), s.id);
    }
  }

  lemma {:induction false} TimelyIsUndisturbed(s: Setting, between: nat -> seq<Event>, ttl: int, start: AuthenStart,
                                               k: nat, connFlags: Option<byte>, body: Bytes, t: Table)
    requires k < 128 && Expecting(s, start, k, connFlags, body, t) && ValidVersion(s.version)
    requires ActsBy(s.env, between, ttl) && Timely(s, between, ttl)
    requires k > 0 ==> t[s.id].lastActive == s.env.times(k - 1).answered
    ensures Undisturbed(s, k, connFlags, body, t)
    decreases 128 - k
  {
    hide ActsBy, Timely, Exchanged, Onward, Converse, Kept, FlagsAfter, TableAfter;
    KeptByEvents(s, between, ttl, k, t);
    Progress(s, start, k, connFlags, body, None, t);
    var r := Exchanged(s, k, connFlags, Opening(s, k, body), t);
    match Onward(s, k, r)
    case None =>
    case Some((_, next)) =>
      if k + 1 < 128 {
        TimelyIsUndisturbed(s, between, ttl, start, k + 1, FlagsAfter(r, connFlags), next, TableAfter(r, t));
      }
  }

  /** A login among other sessions and under the sweeper is good, and it is part of the run of all of
      them together. */
  lemma LoginAmongOthers(s: Setting, between: nat -> seq<Event>, ttl: int, start: AuthenStart, t: Table)
    requires AuthenStartFits(start) && ValidVersion(s.version)
    requires ActsBy(s.env, between, ttl) && Timely(s, between, ttl)
    ensures var d := FreshLogin(s, start, t);
            var server := Serve(s.allow, s.key, s.remote, s.env, 0, None, t, FrameAll(s.key, Sent(d.rounds)));
            && Undisturbed(s, 0, None, AuthenStartWire(start), t)
            && d.rounds != [] && GoodDialogue(s, start, 0, d)
            && d.table == Play(World(t, []), ttl, Trace(s.remote, s.env, between, 0, server.exchanges)).table
  {
    hide ActsBy, Timely, Converse, GoodDialogue, Serve, Play, Trace, Shares, AllCalls, OurCalls, Undisturbed, AuthenStartWire, FrameAll, Sent;
    TimelyIsUndisturbed(s, between, ttl, start, 0, None, AuthenStartWire(start), t);
    FreshLoginIsGood(s, start, t);
    LoginIsBothLoops(s, start, t);
    ConnectionIsARun(s.allow, s.key, s.remote, s.env, between, ttl, 0, None, World(t, []), FrameAll(s.key, Sent(FreshLogin(s, start, t).rounds)));
  }

  // ---------------------------------------------------------------- packets the server does not expect

  /** What becomes of any packet after the first that reaches the server, with `u` the table it meets:
      the handler is asked, with the stored START, exactly when the session is stored, awaits this number
      and the body reads as a CONTINUE; otherwise the client gets the generic error, and the session is
      dropped exactly when it awaited another number. */
  lemma AskedIff(s: Setting, k: nat, connFlags: Option<byte>, body: Bytes, t: Table)
    requires 0 < k < 128 && ValidVersion(s.version) && !s.env.cancelled(k) && |body| <= MAX_PACKET_SIZE
    requires connFlags == None || connFlags == Some(LoginFlags(s.key.mode))
    ensures var u, turn := s.env.others(k, t), Exchanged(s, k, connFlags, Opening(s, k, body), t).turn;
            var awaited := s.id in u && u[s.id].lastOutboundSeq == 2 * k;
            && turn.Dispatched? && turn.x.request.hdr.version == s.version
            && (turn.call.Some? <==> awaited && AuthenContinueParse(body).Ok?)
            && (turn.call.Some? ==>
                  turn.call == Some(AuthenCall(AuthenContext(s.id, 2 * k + 1, u[s.id].start, s.remote), Some(AuthenContinueParse(body).value))))
            && (turn.call.None? ==>
                  && turn.x.reply == Generic
                  && turn.table == if awaited then u else u - {s.id})
  {
    hide Frame, ReadFrame, AuthenContinueParse, Back, Decide;
    var p := Opening(s, k, body);
    FrameReadsBack(s.key, p.hdr, body, []);
    assert Frame(s.key, p.hdr, body) + [] == Frame(s.key, p.hdr, body);
    var q := Packet(Sealed(s.key, p.hdr, body), body);
    AskedStep(s.env.others(k, t), q, s.remote, s.env.handler(k), s.env.times(k));
  }

  lemma AskedStep(u: Table, q: Packet, remote: Bytes, h: Handler, at: Times)
    requires q.hdr.ptype == AUTHENTICATION && q.hdr.seqNo > 1 && q.hdr.seqNo % 2 == 1
    ensures var o, id := Step(u, q, remote, h, at), q.hdr.sessionId;
            var awaited := id in u && u[id].lastOutboundSeq == q.hdr.seqNo - 1;
            && (o.call.Some? <==> awaited && AuthenContinueParse(q.body).Ok?)
            && (o.call.Some? ==>
                  o.call == Some(AuthenCall(AuthenContext(id, q.hdr.seqNo, u[id].start, remote), Some(AuthenContinueParse(q.body).value))))
            && (o.call.None? ==> o.reply == Generic && o.table == if awaited then u else u - {id})
  {
    hide AuthenContinueParse, AuthenReplyTo, AfterAnswer;
  }

  /** Among the packets the server expects, those whose session others have kept, and only those, reach
      the handler as packets of this login. */
  lemma AcceptedIffKept(s: Setting, start: AuthenStart, k: nat, connFlags: Option<byte>, body: Bytes, t: Table)
    requires 0 < k < 128 && Expecting(s, start, k, connFlags, body, t)
    requires ValidVersion(s.version) && !s.env.cancelled(k) && |body| <= MAX_PACKET_SIZE
    ensures Exchanged(s, k, connFlags, Opening(s, k, body), t).turn.Dispatched?
    ensures Exchanged(s, k, connFlags, Opening(s, k, body), t).turn.call == Some(CallIn(s, start, k, body)) <==> Kept(s, k, t)
  {
    hide Exchanged, AuthenContinueParse;
    AskedIff(s, k, connFlags, body, t);
  }

  // ---------------------------------------------------------------- logging in twice

  /** The START of a client whose counter has moved on reads as a CONTINUE when its first four bytes,
      taken for two lengths, happen to add up to the size of the body. */
  predicate ReadsAsContinue(start: AuthenStart) {
    256 * (start.action as int + start.authenType as int) + start.privLvl as int + start.service as int
    == 3 + |start.user| + |start.port| + |start.remAddr| + |start.data|
  }

  lemma StartAsContinue(start: AuthenStart)
    requires AuthenStartFits(start)
    ensures AuthenContinueParse(AuthenStartWire(start)).Ok? <==> ReadsAsContinue(start)
  {
    var fs, w := StartFields(start), AuthenStartWire(start);
    FlattenLength(fs);
    TotalFour(|start.user|, |start.port|, |start.remAddr|, |start.data|);
    assert Lengths(fs) == [|start.user|, |start.port|, |start.remAddr|, |start.data|];
    assert w[0] == start.action && w[1] == start.privLvl && w[2] == start.authenType && w[3] == start.service;
  }

  lemma TotalFour(a: nat, b: nat, c: nat, d: nat)
    ensures Total([a, b, c, d]) == a + b + c + d
  {
    TotalThree(a, b, c, [d]);
    assert [a, b, c] + [d] == [a, b, c, d];
    assert Total([d]) == d;
  }

  /** A second login of the same client starts at a number above 1. The handler is asked about its START
      exactly when the server still holds the session of the first login, awaits just this number, and
      the START reads as a CONTINUE; it is then asked with the START of the first login. In every other
      case the login fails with the generic error. */
  lemma ReusedClientAskedIff(s: Setting, start: AuthenStart, k: nat, connFlags: Option<byte>, t: Table)
    requires AuthenStartFits(start) && ValidVersion(s.version)
    requires 0 < k < 128 && !s.env.cancelled(k)
    requires connFlags == None || connFlags == Some(LoginFlags(s.key.mode))
    ensures var u, d := s.env.others(k, t), Converse(s, k, connFlags, AuthenStartWire(start), None, t);
            var awaited := s.id in u && u[s.id].lastOutboundSeq == 2 * k;
            && d.rounds != [] && d.rounds[0].turn.Dispatched?
            && var call := d.rounds[0].turn.call;
               && (call.Some? <==> awaited && ReadsAsContinue(start))
               && (call.Some? ==> call.value.AuthenCall? && call.value.authen.start == u[s.id].start && call.value.cont.Some?)
               && (call.None? ==>
                     && |d.rounds| == 1 && d.reply == None && d.error == Some(InvalidPacket)
                     && d.table == if awaited then u else u - {s.id})
  {
    hide AuthenStartWire, ReadsAsContinue, Exchanged, AuthenContinueParse, React;
    var body := AuthenStartWire(start);
    AuthenStartParseInvertsWire(start);
    StartAsContinue(start);
    AskedIff(s, k, connFlags, body, t);
    var r := Exchanged(s, k, connFlags, Opening(s, k, body), t);
    if r.turn.call.None? {
      GenericEnds(s, k, connFlags, Opening(s, k, body), t);
    }
  }

  lemma GenericEnds(s: Setting, k: nat, connFlags: Option<byte>, p: Packet, t: Table)
    requires var turn := Exchanged(s, k, connFlags, p, t).turn;
             turn.Dispatched? && turn.x.reply == Generic && ValidVersion(turn.x.request.hdr.version)
    ensures var r := Exchanged(s, k, connFlags, p, t);
            r.seen.Got? && React(s.prompt, k, r.seen.packet) == Done(None, Some(InvalidPacket))
  {
    hide Frame, ReadFrame, TakeTurn, ReactTo;
    var hdr := ReplyHeader(Exchanged(s, k, connFlags, p, t).turn.x.request.hdr);
    FrameReadsBack(s.key, hdr, [], []);
    assert Frame(s.key, hdr, []) + [] == Frame(s.key, hdr, []);
  }

  // ---------------------------------------------------------------- a login that ends with a follow

  function Zeros(n: nat): Bytes {
    seq(n, _ => 0)
  }

  /** A handler that always sends the client elsewhere, and nobody else about. */
  function FollowSetting(key: Key, id: uint32): Setting {
    var follow := AuthenReply(AUTHEN_FOLLOW, 0, [], []);
    var h := Handler((_, _) => Some(follow), _ => None, _ => None);
    Setting(key, false, [], Env(_ => h, _ => Times(0, 0), _ => false, (_, t) => t), NoPrompt, 0xc0, id)
  }

  /** A START of 519 bytes that reads as a CONTINUE. */
  function OddStart(): AuthenStart {
    AuthenStart(1, 1, 1, 1, Zeros(255), Zeros(255), Zeros(1), [])
  }

  /** The client takes a follow for a failed login and is done, while the server holds the session. */
  lemma FollowHoldsSession(key: Key, id: uint32)
    ensures AuthenStartFits(OddStart())
    ensures var s, start := FollowSetting(key, id), OddStart();
            var d := FreshLogin(s, start, map[]);
            && |d.rounds| == 1 && d.error == None && d.reply == Some(AuthenReply(AUTHEN_FAIL, 0, [], []))
            && id in d.table && d.table[id].lastOutboundSeq == 2 && d.table[id].start == start
  {
    hide Exchanged, React, AuthenStartWire, CallIn, TableAfter;
    var s, start := FollowSetting(key, id), OddStart();
    var body := AuthenStartWire(start);
    AuthenStartParseInvertsWire(start);
    OneRound(s, start, 0, None, body, map[]);
    var r := Exchanged(s, 0, None, Opening(s, 0, body), map[]);
    assert AnswerIn(s, start, 0, body) == Some(AuthenReply(AUTHEN_FOLLOW, 0, [], []));
  }

  /** A handler that passes everybody. */
  function PassSetting(key: Key, id: uint32): Setting {
    FollowSetting(key, id).(env := FollowSetting(key, id).env.(handler := _ => Handler((_, _) => Some(AuthenReply(0x01, 0, [], [])), _ => None, _ => None)))
  }

  /** A login that is passed at once: the client returns the pass and the server forgets the session. */
  lemma PassEndsSession(key: Key, id: uint32)
    ensures AuthenStartFits(OddStart())
    ensures var d := FreshLogin(PassSetting(key, id), OddStart(), map[]);
            |d.rounds| == 1 && d.error == None && d.reply == Some(AuthenReply(0x01, 0, [], [])) && id !in d.table
  {
    hide Exchanged, React, AuthenStartWire, CallIn, TableAfter;
    var s, start := PassSetting(key, id), OddStart();
    var body := AuthenStartWire(start);
    AuthenStartParseInvertsWire(start);
    OneRound(s, start, 0, None, body, map[]);
    var r := Exchanged(s, 0, None, Opening(s, 0, body), map[]);
    assert AnswerIn(s, start, 0, body) == Some(AuthenReply(0x01, 0, [], []));
  }

  /** If that client logs in again, its START is put to the handler as a CONTINUE of the first login. */
  lemma ReusedClientAsked(key: Key, id: uint32)
    ensures AuthenStartFits(OddStart())
    ensures var s, start := FollowSetting(key, id), OddStart();
            var first := FreshLogin(s, start, map[]);
            var again := Converse(s, 1, Some(LoginFlags(key.mode)), AuthenStartWire(start), None, first.table);
            && again.rounds != [] && again.rounds[0].turn.Dispatched?
            && var call := again.rounds[0].turn.call; call.Some? && call.value.AuthenCall? && call.value.cont.Some?
  {
    hide Converse, AuthenStartWire;
    FollowHoldsSession(key, id);
    var s, start := FollowSetting(key, id), OddStart();
    ReusedClientAskedIff(s, start, 1, Some(LoginFlags(key.mode)), FreshLogin(s, start, map[]).table);
  }
}
