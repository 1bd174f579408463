/**
  The seven packet bodies and their wire layout (packet/authen.go, packet/author.go, packet/acct.go).

  For each body `B`: `BFits` holds of the values that can be marshalled, `BWire` lays such a value out,
  and `BParse` reads bytes. `BParse` and `BWire` are inverse to each other, so accepted byte strings
  and marshallable values are in one-to-one correspondence.
*/
module Bodies {
  import opened Base
  import opened Layout

  // ---------------------------------------------------------------- authentication START

  datatype AuthenStart = AuthenStart(
    action: byte, privLvl: byte, authenType: byte, service: byte,
    user: Bytes, port: Bytes, remAddr: Bytes, data: Bytes)

  function StartFields(a: AuthenStart): seq<Bytes> {
    [a.user, a.port, a.remAddr, a.data]
  }

  predicate AuthenStartFits(a: AuthenStart) {
    AllShort(StartFields(a))
  }

  function AuthenStartWire(a: AuthenStart): Bytes
    requires AuthenStartFits(a)
  {
    [a.action, a.privLvl, a.authenType, a.service] + LengthBytes(StartFields(a)) + Flatten(StartFields(a))
  }

  function AuthenStartParse(d: Bytes): Result<AuthenStart> {
    if |d| < 8 then Err(InvalidPacket)
    else if 8 + Total(d[4..8]) != |d| then Err(InvalidLength)
    else
      var ps := Cut(d[8..], d[4..8]);
      Ok(AuthenStart(d[0], d[1], d[2], d[3], ps[0], ps[1], ps[2], ps[3]))
  }

  lemma AuthenStartParseInvertsWire(a: AuthenStart)
    requires AuthenStartFits(a)
    ensures AuthenStartParse(AuthenStartWire(a)) == Ok(a)
    ensures 8 <= |AuthenStartWire(a)| <= 1028
  {
    var fs := StartFields(a);
    var w := AuthenStartWire(a);
    CutInvertsFlatten(fs);
    TotalBound(Lengths(fs), 255);
    assert w[4..8] == LengthBytes(fs) == Lengths(fs);
    assert w[8..] == Flatten(fs);
  }

  lemma AuthenStartWireInvertsParse(d: Bytes)
    requires AuthenStartParse(d).Ok?
    ensures AuthenStartFits(AuthenStartParse(d).value)
    ensures AuthenStartWire(AuthenStartParse(d).value) == d
  {
    var a := AuthenStartParse(d).value;
    var ps := Cut(d[8..], d[4..8]);
    FlattenInvertsCut(d[8..], d[4..8]);
    assert ps == StartFields(a);
    FieldsOfTable(ps, d[4..8]);
    assert d == d[..4] + d[4..8] + d[8..];
  }

  /** Fields whose lengths are the bytes of a table fit one byte each and give the table back. */
  lemma FieldsOfTable(ps: seq<Bytes>, table: Bytes)
    requires Lengths(ps) == table
    ensures AllShort(ps) && LengthBytes(ps) == table
  {
    forall i | 0 <= i < |ps|
      ensures |ps[i]| == table[i]
    {
      assert Lengths(ps)[i] == table[i];
    }
  }

  // ---------------------------------------------------------------- authentication CONTINUE

  datatype AuthenContinue = AuthenContinue(userMsg: Bytes, data: Bytes, flags: byte)

  predicate AuthenContinueFits(a: AuthenContinue) {
    |a.userMsg| <= 0xffff && |a.data| <= 0xffff
  }

  function AuthenContinueWire(a: AuthenContinue): Bytes
    requires AuthenContinueFits(a)
  {
    U16(|a.userMsg|) + U16(|a.data|) + [a.flags] + a.userMsg + a.data
  }

  function AuthenContinueParse(d: Bytes): Result<AuthenContinue> {
    if |d| < 5 then Err(InvalidPacket)
    else
      var ul, dl := FromU16(d[0], d[1]), FromU16(d[2], d[3]);
      if 5 + ul + dl != |d| then Err(InvalidLength)
      else Ok(AuthenContinue(d[5..5 + ul], d[5 + ul..], d[4]))
  }

  lemma AuthenContinueParseInvertsWire(a: AuthenContinue)
    requires AuthenContinueFits(a)
    ensures AuthenContinueParse(AuthenContinueWire(a)) == Ok(a)
    ensures |AuthenContinueWire(a)| == 5 + |a.userMsg| + |a.data|
  {
  }

  lemma AuthenContinueWireInvertsParse(d: Bytes)
    requires AuthenContinueParse(d).Ok?
    ensures AuthenContinueFits(AuthenContinueParse(d).value)
    ensures AuthenContinueWire(AuthenContinueParse(d).value) == d
  {
    var ul := FromU16(d[0], d[1]);
    assert d == d[..2] + d[2..4] + [d[4]] + d[5..5 + ul] + d[5 + ul..];
  }

  // ---------------------------------------------------------------- authentication REPLY

  datatype AuthenReply = AuthenReply(status: byte, flags: byte, serverMsg: Bytes, data: Bytes)

  predicate AuthenReplyFits(a: AuthenReply) {
    |a.serverMsg| <= 0xffff && |a.data| <= 0xffff
  }

  function AuthenReplyWire(a: AuthenReply): Bytes
    requires AuthenReplyFits(a)
  {
    [a.status, a.flags] + U16(|a.serverMsg|) + U16(|a.data|) + a.serverMsg + a.data
  }

  function AuthenReplyParse(d: Bytes): Result<AuthenReply> {
    if |d| < 6 then Err(InvalidPacket)
    else
      var ml, dl := FromU16(d[2], d[3]), FromU16(d[4], d[5]);
      if 6 + ml + dl != |d| then Err(InvalidLength)
      else Ok(AuthenReply(d[0], d[1], d[6..6 + ml], d[6 + ml..]))
  }

  lemma AuthenReplyParseInvertsWire(a: AuthenReply)
    requires AuthenReplyFits(a)
    ensures AuthenReplyParse(AuthenReplyWire(a)) == Ok(a)
    ensures |AuthenReplyWire(a)| == 6 + |a.serverMsg| + |a.data|
  {
  }

  lemma AuthenReplyWireInvertsParse(d: Bytes)
    requires AuthenReplyParse(d).Ok?
    ensures AuthenReplyFits(AuthenReplyParse(d).value)
    ensures AuthenReplyWire(AuthenReplyParse(d).value) == d
  {
  }

  // ---------------------------------------------------------------- authorization REQUEST

  datatype AuthorRequest = AuthorRequest(
    method_: byte, privLvl: byte, authenType: byte, service: byte,
    user: Bytes, port: Bytes, remAddr: Bytes, args: seq<Bytes>)

  function AuthorFields(a: AuthorRequest): seq<Bytes> {
    [a.user, a.port, a.remAddr]
  }

  predicate AuthorRequestFits(a: AuthorRequest) {
    AllShort(AuthorFields(a)) && AllShort(a.args) && |a.args| <= 255
  }

  function AuthorRequestWire(a: AuthorRequest): Bytes
    requires AuthorRequestFits(a)
  {
    [a.method_, a.privLvl, a.authenType, a.service] + LengthBytes(AuthorFields(a))
    + [|a.args|] + LengthBytes(a.args) + Flatten(AuthorFields(a) + a.args)
  }

  function AuthorRequestParse(d: Bytes): Result<AuthorRequest> {
    if |d| < 8 then Err(InvalidPacket)
    else
      var pos := 8 + d[7] as int;
      if pos > |d| then Err(InvalidPacket)
      else
        var table := d[4..7] + d[8..pos];
        if pos + Total(table) != |d| then Err(InvalidLength)
        else
          var ps := Cut(d[pos..], table);
          Ok(AuthorRequest(d[0], d[1], d[2], d[3], ps[0], ps[1], ps[2], ps[3..]))
  }

  lemma AuthorRequestParseInvertsWire(a: AuthorRequest)
    requires AuthorRequestFits(a)
    ensures AuthorRequestParse(AuthorRequestWire(a)) == Ok(a)
    ensures |AuthorRequestWire(a)| == 8 + |a.args| + Total(Lengths(AuthorFields(a) + a.args)) <= 66053
  {
    hide Cut, Flatten, Total;
    var fs := AuthorFields(a) + a.args;
    CutInvertsFlatten(fs);
    TotalBound(Lengths(fs), 255);
    AuthorRequestWireParts(a);
    assert fs[3..] == a.args;
  }

  lemma AuthorRequestWireParts(a: AuthorRequest)
    requires AuthorRequestFits(a)
    ensures var w, fs, pos := AuthorRequestWire(a), AuthorFields(a) + a.args, 8 + |a.args|;
            && |w| == pos + |Flatten(fs)| && w[7] == |a.args| && w[..4] == [a.method_, a.privLvl, a.authenType, a.service]
            && w[4..7] + w[8..pos] == Lengths(fs) && w[pos..] == Flatten(fs)
  {
    hide Flatten;
    var fs := AuthorFields(a) + a.args;
    var w := AuthorRequestWire(a);
    var pos := 8 + |a.args|;
    assert w[4..7] == LengthBytes(AuthorFields(a)) && w[8..pos] == LengthBytes(a.args);
    assert w[pos..] == Flatten(fs);
  }

  /** Where the fields of an accepted request came from. */
  lemma AuthorRequestParts(d: Bytes)
    requires AuthorRequestParse(d).Ok?
    ensures var a := AuthorRequestParse(d).value;
            var pos := 8 + d[7] as int;
            && AuthorRequestFits(a)
            && |a.args| == d[7]
            && LengthBytes(AuthorFields(a)) == d[4..7]
            && LengthBytes(a.args) == d[8..pos]
            && Flatten(AuthorFields(a) + a.args) == d[pos..]
  {
    var a := AuthorRequestParse(d).value;
    var pos := 8 + d[7] as int;
    var table := d[4..7] + d[8..pos];
    var ps := Cut(d[pos..], table);
    FlattenInvertsCut(d[pos..], table);
    CutSplits(d[pos..], table, 3);
    assert ps[..3] == AuthorFields(a) && ps[3..] == a.args;
    assert ps == AuthorFields(a) + a.args;
    assert table[..3] == d[4..7] && table[3..] == d[8..pos];
    FieldsOfTable(AuthorFields(a), d[4..7]);
    FieldsOfTable(a.args, d[8..pos]);
  }

  lemma AuthorRequestWireInvertsParse(d: Bytes)
    requires AuthorRequestParse(d).Ok?
    ensures AuthorRequestFits(AuthorRequestParse(d).value)
    ensures AuthorRequestWire(AuthorRequestParse(d).value) == d
  {
    AuthorRequestParts(d);
    var pos := 8 + d[7] as int;
    assert d == d[..4] + d[4..7] + [d[7]] + d[8..pos] + d[pos..];
  }

  // ---------------------------------------------------------------- authorization REPLY

  datatype AuthorReply = AuthorReply(status: byte, serverMsg: Bytes, data: Bytes, args: seq<Bytes>)

  predicate AuthorReplyFits(a: AuthorReply) {
    |a.serverMsg| <= 0xffff && |a.data| <= 0xffff && AllShort(a.args) && |a.args| <= 255
  }

  function AuthorReplyWire(a: AuthorReply): Bytes
    requires AuthorReplyFits(a)
  {
    [a.status, |a.args|] + U16(|a.serverMsg|) + U16(|a.data|) + LengthBytes(a.args)
    + Flatten([a.serverMsg, a.data] + a.args)
  }

  function AuthorReplyParse(d: Bytes): Result<AuthorReply> {
    if |d| < 6 then Err(InvalidPacket)
    else
      var pos := 6 + d[1] as int;
      if pos > |d| then Err(InvalidPacket)
      else
        var table: seq<nat> := [FromU16(d[2], d[3]), FromU16(d[4], d[5])] + d[6..pos];
        if pos + Total(table) != |d| then Err(InvalidLength)
        else
          var ps := Cut(d[pos..], table);
          Ok(AuthorReply(d[0], ps[0], ps[1], ps[2..]))
  }

  lemma AuthorReplyParseInvertsWire(a: AuthorReply)
    requires AuthorReplyFits(a)
    ensures AuthorReplyParse(AuthorReplyWire(a)) == Ok(a)
    ensures |AuthorReplyWire(a)| == 6 + |a.args| + Total(Lengths([a.serverMsg, a.data] + a.args))
  {
    var fs := [a.serverMsg, a.data] + a.args;
    var w := AuthorReplyWire(a);
    var pos := 6 + |a.args|;
    AuthorReplyTable(a);
    CutInvertsFlatten(fs);
    assert fs[2..] == a.args;
  }

  /** What a reader finds in the fixed part and the length table of a reply. */
  lemma AuthorReplyTable(a: AuthorReply)
    requires AuthorReplyFits(a)
    ensures var fs, w, pos := [a.serverMsg, a.data] + a.args, AuthorReplyWire(a), 6 + |a.args|;
            && |w| == pos + |Flatten(fs)|
            && w[0] == a.status && w[1] == |a.args|
            && [FromU16(w[2], w[3]), FromU16(w[4], w[5])] + w[6..pos] == Lengths(fs)
            && w[pos..] == Flatten(fs)
  {
    hide Flatten;
    var fs := [a.serverMsg, a.data] + a.args;
    var w, pos := AuthorReplyWire(a), 6 + |a.args|;
    var head: Bytes := [a.status, |a.args|] + U16(|a.serverMsg|) + U16(|a.data|);
    assert |head| == 6 && w == head + LengthBytes(a.args) + Flatten(fs);
    assert w[6..pos] == LengthBytes(a.args) && w[pos..] == Flatten(fs);
    assert forall i | 0 <= i < 6 :: w[i] == head[i];
    assert Lengths(fs) == [|a.serverMsg|, |a.data|] + LengthBytes(a.args);
  }

  /** Where the fields of an accepted reply came from. */
  lemma AuthorReplyParts(d: Bytes)
    requires AuthorReplyParse(d).Ok?
    ensures var a := AuthorReplyParse(d).value;
            var pos := 6 + d[1] as int;
            && AuthorReplyFits(a)
            && |a.args| == d[1]
            && |a.serverMsg| == FromU16(d[2], d[3])
            && |a.data| == FromU16(d[4], d[5])
            && LengthBytes(a.args) == d[6..pos]
            && Flatten([a.serverMsg, a.data] + a.args) == d[pos..]
  {
    var a := AuthorReplyParse(d).value;
    var pos := 6 + d[1] as int;
    var table: seq<nat> := [FromU16(d[2], d[3]), FromU16(d[4], d[5])] + d[6..pos];
    var ps := Cut(d[pos..], table);
    FlattenInvertsCut(d[pos..], table);
    CutSplits(d[pos..], table, 2);
    assert ps == [a.serverMsg, a.data] + a.args;
    assert Lengths(ps)[0] == table[0] && Lengths(ps)[1] == table[1];
    assert table[2..] == d[6..pos];
    FieldsOfTable(a.args, d[6..pos]);
  }

  lemma AuthorReplyWireInvertsParse(d: Bytes)
    requires AuthorReplyParse(d).Ok?
    ensures AuthorReplyFits(AuthorReplyParse(d).value)
    ensures AuthorReplyWire(AuthorReplyParse(d).value) == d
  {
    AuthorReplyParts(d);
    FromU16RoundTrip(d[2], d[3]);
    FromU16RoundTrip(d[4], d[5]);
    var pos := 6 + d[1] as int;
    assert d == [d[0], d[1]] + [d[2], d[3]] + [d[4], d[5]] + d[6..pos] + d[pos..];
  }

  // ---------------------------------------------------------------- accounting REQUEST

  datatype AcctRequest = AcctRequest(
    flags: byte, method_: byte, privLvl: byte, authenType: byte, service: byte,
    user: Bytes, port: Bytes, remAddr: Bytes, args: seq<Bytes>)

  function AcctFields(a: AcctRequest): seq<Bytes> {
    [a.user, a.port, a.remAddr]
  }

  predicate AcctRequestFits(a: AcctRequest) {
    AllShort(AcctFields(a)) && AllShort(a.args) && |a.args| <= 255
  }

  function AcctRequestWire(a: AcctRequest): Bytes
    requires AcctRequestFits(a)
  {
    [a.flags, a.method_, a.privLvl, a.authenType, a.service] + LengthBytes(AcctFields(a))
    + [|a.args|] + LengthBytes(a.args) + Flatten(AcctFields(a) + a.args)
  }

  function AcctRequestParse(d: Bytes): Result<AcctRequest> {
    if |d| < 9 then Err(InvalidPacket)
    else
      var pos := 9 + d[8] as int;
      if pos > |d| then Err(InvalidPacket)
      else
        var table := d[5..8] + d[9..pos];
        if pos + Total(table) != |d| then Err(InvalidLength)
        else
          var ps := Cut(d[pos..], table);
          Ok(AcctRequest(d[0], d[1], d[2], d[3], d[4], ps[0], ps[1], ps[2], ps[3..]))
  }

  /** An accounting request is its flags byte followed by an authorization request. */
  lemma AcctIsFlagsThenAuthor(a: AcctRequest)
    requires AcctRequestFits(a)
    ensures AcctRequestWire(a) == [a.flags] + AuthorRequestWire(AuthorPart(a))
  {
  }

  function AuthorPart(a: AcctRequest): AuthorRequest {
    AuthorRequest(a.method_, a.privLvl, a.authenType, a.service, a.user, a.port, a.remAddr, a.args)
  }

  lemma AcctRequestParseShape(d: Bytes)
    requires d != []
    ensures match AuthorRequestParse(d[1..])
            case Ok(v) => AcctRequestParse(d).Ok? && AcctRequestParse(d).value.flags == d[0] && AuthorPart(AcctRequestParse(d).value) == v
            case Err(e) => AcctRequestParse(d) == Err(e)
  {
    if |d| >= 9 {
      var e := d[1..];
      var pos := 9 + d[8] as int;
      if pos <= |d| {
        assert e[4..7] == d[5..8] && e[8..pos - 1] == d[9..pos] && e[pos - 1..] == d[pos..];
      }
    }
  }

  lemma AcctRequestParseInvertsWire(a: AcctRequest)
    requires AcctRequestFits(a)
    ensures AcctRequestParse(AcctRequestWire(a)) == Ok(a)
    ensures |AcctRequestWire(a)| == 9 + |a.args| + Total(Lengths(AcctFields(a) + a.args)) <= 66054
  {
    var p := AuthorPart(a);
    AcctIsFlagsThenAuthor(a);
    AuthorRequestParseInvertsWire(p);
    var w := AcctRequestWire(a);
    assert w[1..] == AuthorRequestWire(p);
    AcctRequestParseShape(w);
    assert AuthorFields(p) == AcctFields(a);
  }

  lemma AcctRequestWireInvertsParse(d: Bytes)
    requires AcctRequestParse(d).Ok?
    ensures AcctRequestFits(AcctRequestParse(d).value)
    ensures AcctRequestWire(AcctRequestParse(d).value) == d
  {
    var a := AcctRequestParse(d).value;
    AcctRequestParseShape(d);
    AuthorRequestWireInvertsParse(d[1..]);
    assert AuthorFields(AuthorPart(a)) == AcctFields(a);
    AcctIsFlagsThenAuthor(a);
  }

  // ---------------------------------------------------------------- accounting REPLY

  datatype AcctReply = AcctReply(status: byte, serverMsg: Bytes, data: Bytes)

  predicate AcctReplyFits(a: AcctReply) {
    |a.serverMsg| <= 0xffff && |a.data| <= 0xffff
  }

  function AcctReplyWire(a: AcctReply): Bytes
    requires AcctReplyFits(a)
  {
    U16(|a.serverMsg|) + U16(|a.data|) + [a.status] + a.serverMsg + a.data
  }

  function AcctReplyParse(d: Bytes): Result<AcctReply> {
    if |d| < 5 then Err(InvalidPacket)
    else
      var ml, dl := FromU16(d[0], d[1]), FromU16(d[2], d[3]);
      if 5 + ml + dl != |d| then Err(InvalidLength)
      else Ok(AcctReply(d[4], d[5..5 + ml], d[5 + ml..]))
  }

  lemma AcctReplyParseInvertsWire(a: AcctReply)
    requires AcctReplyFits(a)
    ensures AcctReplyParse(AcctReplyWire(a)) == Ok(a)
    ensures |AcctReplyWire(a)| == 5 + |a.serverMsg| + |a.data|
  {
  }

  lemma AcctReplyWireInvertsParse(d: Bytes)
    requires AcctReplyParse(d).Ok?
    ensures AcctReplyFits(AcctReplyParse(d).value)
    ensures AcctReplyWire(AcctReplyParse(d).value) == d
  {
    var ml := FromU16(d[0], d[1]);
    assert d == d[..2] + d[2..4] + [d[4]] + d[5..5 + ml] + d[5 + ml..];
  }

  // ---------------------------------------------------------------- where each field travels

  /** Section 5.1 of RFC 8907. */
  lemma AuthenStartLayout(a: AuthenStart)
    requires AuthenStartFits(a)
    ensures var w := AuthenStartWire(a);
            && |w| >= 8 && w[0] == a.action && w[1] == a.privLvl && w[2] == a.authenType && w[3] == a.service
            && w[4] == |a.user| && w[5] == |a.port| && w[6] == |a.remAddr| && w[7] == |a.data|
            && w[8..] == a.user + a.port + a.remAddr + a.data
  {
    hide Flatten;
    FlattenFour(a.user, a.port, a.remAddr, a.data);
  }

  /** Section 5.3 of RFC 8907. */
  lemma AuthenContinueLayout(a: AuthenContinue)
    requires AuthenContinueFits(a)
    ensures var w := AuthenContinueWire(a);
            && |w| >= 5 && 256 * w[0] as int + w[1] as int == |a.userMsg| && 256 * w[2] as int + w[3] as int == |a.data|
            && w[4] == a.flags && w[5..] == a.userMsg + a.data
  {
  }

  /** Section 5.2 of RFC 8907. */
  lemma AuthenReplyLayout(a: AuthenReply)
    requires AuthenReplyFits(a)
    ensures var w := AuthenReplyWire(a);
            && |w| >= 6 && w[0] == a.status && w[1] == a.flags
            && 256 * w[2] as int + w[3] as int == |a.serverMsg| && 256 * w[4] as int + w[5] as int == |a.data|
            && w[6..] == a.serverMsg + a.data
  {
  }

  /** Section 6.1 of RFC 8907. */
  lemma AuthorRequestLayout(a: AuthorRequest)
    requires AuthorRequestFits(a)
    ensures var w, pos := AuthorRequestWire(a), 8 + |a.args|;
            && |w| >= pos && w[0] == a.method_ && w[1] == a.privLvl && w[2] == a.authenType && w[3] == a.service
            && w[4] == |a.user| && w[5] == |a.port| && w[6] == |a.remAddr| && w[7] == |a.args|
            && (forall i | 0 <= i < |a.args| :: w[8 + i] == |a.args[i]|)
            && w[pos..] == a.user + a.port + a.remAddr + Flatten(a.args)
  {
    hide Flatten;
    FlattenFour(a.user, a.port, a.remAddr, []);
    FlattenAppend(AuthorFields(a), a.args);
  }

  /** Section 6.2 of RFC 8907. */
  lemma AuthorReplyLayout(a: AuthorReply)
    requires AuthorReplyFits(a)
    ensures var w, pos := AuthorReplyWire(a), 6 + |a.args|;
            && |w| >= pos && w[0] == a.status && w[1] == |a.args|
            && 256 * w[2] as int + w[3] as int == |a.serverMsg| && 256 * w[4] as int + w[5] as int == |a.data|
            && (forall i | 0 <= i < |a.args| :: w[6 + i] == |a.args[i]|)
            && w[pos..] == a.serverMsg + a.data + Flatten(a.args)
  {
    hide Flatten;
    FlattenTwo(a.serverMsg, a.data);
    FlattenAppend([a.serverMsg, a.data], a.args);
  }

  /** Section 7.1 of RFC 8907: the flags, then as an authorization request. */
  lemma AcctRequestLayout(a: AcctRequest)
    requires AcctRequestFits(a)
    ensures var w, pos := AcctRequestWire(a), 9 + |a.args|;
            && |w| >= pos && w[0] == a.flags && w[1] == a.method_ && w[2] == a.privLvl && w[3] == a.authenType && w[4] == a.service
            && w[5] == |a.user| && w[6] == |a.port| && w[7] == |a.remAddr| && w[8] == |a.args|
            && (forall i | 0 <= i < |a.args| :: w[9 + i] == |a.args[i]|)
            && w[pos..] == a.user + a.port + a.remAddr + Flatten(a.args)
  {
    hide Flatten;
    FlattenFour(a.user, a.port, a.remAddr, []);
    FlattenAppend(AcctFields(a), a.args);
  }

  /** Section 7.2 of RFC 8907. */
  lemma AcctReplyLayout(a: AcctReply)
    requires AcctReplyFits(a)
    ensures var w := AcctReplyWire(a);
            && |w| >= 5 && 256 * w[0] as int + w[1] as int == |a.serverMsg| && 256 * w[2] as int + w[3] as int == |a.data|
            && w[4] == a.status && w[5..] == a.serverMsg + a.data
  {
  }

  // ---------------------------------------------------------------- sizes

  /** The bound of 66053 bytes is reached, so some marshallable requests are too long for a frame. */
  lemma AuthorRequestCanExceedFrame() returns (a: AuthorRequest)
    ensures AuthorRequestFits(a) && |AuthorRequestWire(a)| == 66053 > MAX_PACKET_SIZE
  {
    var f: Bytes := seq(255, _ => 0);
    a := AuthorRequest(0, 0, 0, 0, f, f, f, seq(255, _ => f));
    var fs := AuthorFields(a) + a.args;
    assert Lengths(fs) == seq(258, _ => 255);
    TotalConstant(258, 255);
    AuthorRequestParseInvertsWire(a);
  }

  lemma {:induction false} TotalConstant(n: nat, c: nat)
    ensures Total(seq(n, _ => c)) == n * c
  {
    if n > 0 {
      var s: seq<nat> := seq(n, _ => c);
      assert s[1..] == seq(n - 1, _ => c);
      TotalConstant(n - 1, c);
    }
  }
}
