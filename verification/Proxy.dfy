/**
  The PROXY prefix of a connection (transport/accept.go, transport/proxy/proxyv1.go,
  transport/proxy/proxyv2.go; sections 2.1 and 2.2 of the HAProxy PROXY protocol specification).

  A connection is the bytes still to be read; a header is consumed and what follows is left for the
  TACACS+ reader.
*/
module Proxy {
  import opened Base
  import opened Text
  import opened Addresses
  import opened Framing

  /** Go's int: 64 bits. */
  type GoInt = n: int | -0x8000_0000_0000_0000 <= n < 0x8000_0000_0000_0000

  datatype Addr = Addr(ip: Ip, port: GoInt)

  /** The client's address, or none to be had from the header, or an error; with the bytes left. */
  datatype HeaderRead =
    | Source(addr: Addr, rest: Bytes)
    | NoSource(rest: Bytes)
    | Failed(error: Error, rest: Bytes)

  const V2_SIG: Bytes := [0x0D, 0x0A, 0x0D, 0x0A, 0x00, 0x0D, 0x0A, 0x51, 0x55, 0x49, 0x54, 0x0A]
  const MAX_V1_LEN := 108

  const LETTER_P: byte := 0x50

  const PROXY_WORD: Bytes := Ascii("PROXY")
  const UNKNOWN_WORD: Bytes := Ascii("UNKNOWN")
  const TCP4_WORD: Bytes := Ascii("TCP4")
  const TCP6_WORD: Bytes := Ascii("TCP6")

  // ---------------------------------------------------------------- version 2

  function InterpretV2(cmd: byte, family: byte, block: Bytes, rest: Bytes): HeaderRead {
    if cmd == 0 then NoSource(rest)
    else if family == 1 then
      if |block| < 12 then Failed(MalformedProxy, rest) else Source(Addr(block[..4], FromU16(block[8], block[9])), rest)
    else if family == 2 then
      if |block| < 36 then Failed(MalformedProxy, rest) else Source(Addr(block[..16], FromU16(block[32], block[33])), rest)
    else NoSource(rest)
  }

  function ReadV2(input: Bytes): HeaderRead {
    if |input| < 16 then Failed(EndOfStream, [])
    else
      var rest := input[16..];
      var verCmd := input[12];
      if input[..12] != V2_SIG || verCmd / 16 != 2 || verCmd % 16 > 1 then Failed(MalformedProxy, rest)
      else
        var n := FromU16(input[14], input[15]);
        if |rest| < n then Failed(EndOfStream, [])
        else InterpretV2(verCmd % 16, input[13] / 16, rest[..n], rest[n..])
  }

  /** A version 2 header: signature, command, family and protocol, and a block of addresses and TLVs. */
  function V2Wire(cmd: byte, famProto: byte, block: Bytes): Bytes
    requires cmd <= 1 && |block| < 0x1_0000
  {
    V2_SIG + [0x20 + cmd, famProto] + U16(|block|) + block
  }

  lemma V2WireBytes(cmd: byte, famProto: byte, block: Bytes, stream: Bytes)
    requires cmd <= 1 && |block| < 0x1_0000
    ensures var input := V2Wire(cmd, famProto, block) + stream;
            && |input| >= 16
            && input[..12] == V2_SIG && input[12] == 0x20 + cmd && input[13] == famProto
            && FromU16(input[14], input[15]) == |block|
            && input[16..] == block + stream
  {
    var head := V2_SIG + [0x20 + cmd, famProto] + U16(|block|);
    assert |head| == 16;
    var input := V2Wire(cmd, famProto, block) + stream;
    assert input == head + (block + stream);
    assert head[..12] == V2_SIG;
  }

  /** Any well-formed header is consumed exactly, whatever its block holds. */
  lemma V2ReadsWire(cmd: byte, famProto: byte, block: Bytes, stream: Bytes)
    requires cmd <= 1 && |block| < 0x1_0000
    ensures ReadV2(V2Wire(cmd, famProto, block) + stream) == InterpretV2(cmd, famProto / 16, block, stream)
  {
    hide V2Wire, InterpretV2;
    V2WireBytes(cmd, famProto, block, stream);
    assert (block + stream)[..|block|] == block && (block + stream)[|block|..] == stream;
  }

  /** Whatever is accepted is a well-formed header followed by the bytes left over. */
  lemma V2AcceptsOnlyWire(input: Bytes) returns (cmd: byte, famProto: byte, block: Bytes)
    requires !ReadV2(input).Failed?
    ensures cmd <= 1 && |block| < 0x1_0000
    ensures input == V2Wire(cmd, famProto, block) + ReadV2(input).rest
  {
    var n := FromU16(input[14], input[15]);
    cmd, famProto, block := input[12] % 16, input[13], input[16..][..n];
    FromU16RoundTrip(input[14], input[15]);
    assert input[12] == 0x20 + cmd;
    assert ReadV2(input).rest == input[16..][n..];
    assert input == input[..12] + [input[12], input[13]] + [input[14], input[15]] + (block + input[16..][n..]);
  }

  // ---------------------------------------------------------------- version 1

  /** Go's text functions for addresses and numbers. */
  datatype Texts = Texts(
    parseIP: Bytes -> Option<Ip>, atoi: Bytes -> Option<GoInt>,
    formatIP: Ip -> Bytes, itoa: GoInt -> Bytes)

  function Split(s: Bytes): (r: seq<Bytes>)
    ensures |r| >= 1
  {
    if s == [] then [[]]
    else
      var rest := Split(s[1..]);
      if s[0] == SPACE then [[]] + rest else [[s[0]] + rest[0]] + rest[1..]
  }

  function Join(parts: seq<Bytes>): Bytes
    requires parts != []
  {
    if |parts| == 1 then parts[0] else parts[0] + [SPACE] + Join(parts[1..])
  }

  predicate ValidPort(p: Option<GoInt>) {
    p.Some? && 0 <= p.value <= 65535
  }

  function ParseLine(tx: Texts, line: Bytes): Result<Addr> {
    var parts := Split(line);
    if |parts| < 2 || parts[0] != PROXY_WORD then Err(MalformedProxy)
    else if parts[1] == UNKNOWN_WORD then Err(NoProxyHeader)
    else if parts[1] != TCP4_WORD && parts[1] != TCP6_WORD then Err(MalformedProxy)
    else if |parts| != 6 then Err(MalformedProxy)
    else
      var src, dst := tx.parseIP(parts[2]), tx.parseIP(parts[3]);
      if src.None? || dst.None? then Err(MalformedProxy)
      else
        var sport, dport := tx.atoi(parts[4]), tx.atoi(parts[5]);
        if !ValidPort(sport) || !ValidPort(dport) then Err(MalformedProxy)
        else if parts[1] == TCP4_WORD && (!IsV4(src.value) || !IsV4(dst.value)) then Err(MalformedProxy)
        else if parts[1] == TCP6_WORD && (IsV4(src.value) || IsV4(dst.value)) then Err(MalformedProxy)
        else Ok(Addr(src.value, sport.value))
  }

  /** The position of the first newline, or the length. */
  function FirstNewline(s: Bytes): (i: nat)
    ensures i <= |s|
    ensures LF !in s[..i]
    ensures i < |s| ==> s[i] == LF
  {
    if s == [] || s[0] == LF then 0
    else
      var i := 1 + FirstNewline(s[1..]);
      assert s[..i] == [s[0]] + s[1..][..i - 1];
      i
  }

  function ReadV1(tx: Texts, input: Bytes): HeaderRead {
    var i := FirstNewline(input);
    if i == |input| then Failed(EndOfStream, [])
    else
      var line, rest := input[..i + 1], input[i + 1..];
      if |line| > MAX_V1_LEN then Failed(MalformedProxy, rest)
      else
        match ParseLine(tx, TrimLine(line))
        case Ok(a) => Source(a, rest)
        case Err(e) => if e == NoProxyHeader then NoSource(rest) else Failed(e, rest)
  }

  // ---------------------------------------------------------------- dispatch and acceptance

  /** The first byte tells the versions apart; anything else is no header and is left in place. */
  function ReadHeader(tx: Texts, input: Bytes): HeaderRead {
    if input == [] then Failed(EndOfStream, [])
    else if input[0] == LETTER_P then ReadV1(tx, input)
    else if input[0] == V2_SIG[0] then ReadV2(input)
    else NoSource(input)
  }

  datatype Accepted = Accepted(client: Addr, stream: Bytes)

  /** The client's address and the bytes the TACACS+ reader will see, or the error the connection is
      closed with. */
  function Accept(tx: Texts, input: Bytes, remote: Addr): Result<Accepted> {
    match ReadHeader(tx, input)
    case Source(a, rest) => Ok(Accepted(a, rest))
    case NoSource(rest) => Ok(Accepted(remote, rest))
    case Failed(e, _) => Err(e)
  }

  /** A stream of packets without a header passes with nothing consumed. */
  lemma PlainStreamPasses(tx: Texts, key: Key, ps: seq<Packet>, tail: Bytes, remote: Addr)
    requires ps != [] && ValidVersion(ps[0].hdr.version)
    ensures Accept(tx, FrameAll(key, ps) + tail, remote) == Ok(Accepted(remote, FrameAll(key, ps) + tail))
  {
  }

  /** Behind any well-formed version 2 header the same packets are read, and the client is the source
      the header advertises or, for local connections and other families, the peer. */
  lemma HeaderIsTransparent(tx: Texts, key: Key, cmd: byte, famProto: byte, block: Bytes, ps: seq<Packet>, remote: Addr)
    requires cmd <= 1 && |block| < 0x1_0000
    requires cmd == 1 && famProto / 16 == 1 ==> |block| >= 12
    requires cmd == 1 && famProto / 16 == 2 ==> |block| >= 36
    requires forall i | 0 <= i < |ps| :: Deliverable(ps[i].hdr, ps[i].body)
    ensures var r := Accept(tx, V2Wire(cmd, famProto, block) + FrameAll(key, ps), remote);
            && r.Ok?
            && ReadAll(key, r.value.stream) == Stream(SealAll(key, ps), EndOfStream)
            && r.value.client
               == (if cmd == 1 && famProto / 16 == 1 then Addr(block[..4], FromU16(block[8], block[9]))
                   else if cmd == 1 && famProto / 16 == 2 then Addr(block[..16], FromU16(block[32], block[33]))
                   else remote)
  {
    hide V2Wire, FrameAll, ReadAll, SealAll, ReadV2;
    var stream := FrameAll(key, ps);
    V2WireBytes(cmd, famProto, block, stream);
    assert (V2Wire(cmd, famProto, block) + stream)[0] == V2_SIG[0] by {
      assert (V2Wire(cmd, famProto, block) + stream)[..12][0] == V2_SIG[0];
    }
    V2ReadsWire(cmd, famProto, block, stream);
    StreamReadsBack(key, ps, []);
    assert stream + [] == stream;
    NothingToRead(key);
    assert SealAll(key, ps) + [] == SealAll(key, ps);
  }

  /** A version 2 header that announces an IPv4 or IPv6 source and is too short to hold it is an error. */
  lemma ShortBlockFails(tx: Texts, cmd: byte, famProto: byte, block: Bytes, stream: Bytes, remote: Addr)
    requires cmd <= 1 && |block| < 0x1_0000
    ensures Accept(tx, V2Wire(cmd, famProto, block) + stream, remote).Err? <==>
            cmd == 1 && ((famProto / 16 == 1 && |block| < 12) || (famProto / 16 == 2 && |block| < 36))
    ensures Accept(tx, V2Wire(cmd, famProto, block) + stream, remote).Err? ==>
            Accept(tx, V2Wire(cmd, famProto, block) + stream, remote).error == MalformedProxy
  {
    hide V2Wire, ReadV2;
    V2WireBytes(cmd, famProto, block, stream);
    assert (V2Wire(cmd, famProto, block) + stream)[0] == V2_SIG[0] by {
      assert (V2Wire(cmd, famProto, block) + stream)[..12][0] == V2_SIG[0];
    }
    V2ReadsWire(cmd, famProto, block, stream);
  }

  /** Whatever does not start as a version 2 header should, or is cut short, is an error. */
  lemma BadV2Fails(tx: Texts, input: Bytes, remote: Addr)
    requires input != [] && input[0] == 0x0d
    requires |input| < 16 || input[..12] != V2_SIG || input[12] !in {0x20, 0x21}
    ensures Accept(tx, input, remote) == Err(if |input| < 16 then EndOfStream else MalformedProxy)
  {
  }

  /** A version 1 header of unknown protocol, whatever else its line says, is skipped and the peer's address
      kept. */
  lemma UnknownPasses(tx: Texts, rest: Bytes, tail: Bytes, remote: Addr)
    requires LF !in rest && CR !in rest && |rest| <= 90 && (rest == [] || rest[0] == SPACE)
    ensures Accept(tx, PROXY_WORD + [SPACE] + UNKNOWN_WORD + rest + [CR, LF] + tail, remote) == Ok(Accepted(remote, tail))
  {
    hide ReadV1, ReadV2, Split;
    var line := PROXY_WORD + [SPACE] + UNKNOWN_WORD + rest;
    UnknownWords();
    UnknownSplits(rest);
    LineReadsBack(tx, line, tail);
    assert (line + [CR, LF] + tail)[0] == PROXY_WORD[0];
  }

  lemma UnknownWords()
    ensures |PROXY_WORD| == 5 && |UNKNOWN_WORD| == 7 && PROXY_WORD[0] == LETTER_P
    ensures PlainText(PROXY_WORD) && PlainText(UNKNOWN_WORD)
  {
  }

  lemma UnknownSplits(rest: Bytes)
    requires rest == [] || rest[0] == SPACE
    ensures var parts := Split(PROXY_WORD + [SPACE] + UNKNOWN_WORD + rest);
            |parts| >= 2 && parts[0] == PROXY_WORD && parts[1] == UNKNOWN_WORD
  {
    hide Split;
    UnknownWords();
    var more := UNKNOWN_WORD + rest;
    assert PROXY_WORD + [SPACE] + UNKNOWN_WORD + rest == PROXY_WORD + [SPACE] + more;
    SplitWord(PROXY_WORD, more);
    if rest == [] {
      assert more == UNKNOWN_WORD;
      SplitWord(UNKNOWN_WORD, []);
    } else {
      assert more == UNKNOWN_WORD + [SPACE] + rest[1..];
      SplitWord(UNKNOWN_WORD, rest[1..]);
    }
  }

  // ---------------------------------------------------------------- version 1, written and read back

  predicate PlainText(s: Bytes) {
    SPACE !in s && CR !in s && LF !in s
  }

  /** What is asked of the text functions: an address parses back to its sixteen-byte form and takes no
      more room than an IPv6 address, anything else that is printed as an address does not parse, a
      number parses back and takes five digits as a port, and no text contains a space or line end. */
  ghost predicate Sound(tx: Texts) {
    && (forall ip: Ip ::
          && PlainText(tx.formatIP(ip))
          && tx.parseIP(tx.formatIP(ip)) == (if |ip| in {4, 16} then Some(Key16(ip)) else None)
          && (|ip| in {4, 16} ==> |tx.formatIP(ip)| <= 39))
    && (forall n: GoInt ::
          && PlainText(tx.itoa(n))
          && tx.atoi(tx.itoa(n)) == Some(n)
          && (0 <= n <= 65535 ==> |tx.itoa(n)| <= 5))
  }

  function V1Parts(tx: Texts, client: Addr, proxy: Addr): seq<Bytes> {
    [PROXY_WORD, if IsV4(client.ip) then TCP4_WORD else TCP6_WORD,
     tx.formatIP(client.ip), tx.formatIP(proxy.ip), tx.itoa(client.port), tx.itoa(proxy.port)]
  }

  function V1Wire(tx: Texts, client: Addr, proxy: Addr): Bytes {
    Join(V1Parts(tx, client, proxy)) + [CR, LF]
  }

  lemma {:induction false} SplitWord(word: Bytes, rest: Bytes)
    requires SPACE !in word
    ensures Split(word) == [word]
    ensures Split(word + [SPACE] + rest) == [word] + Split(rest)
    decreases |word|
  {
    if word == [] {
      assert word + [SPACE] + rest == [SPACE] + rest;
      assert ([SPACE] + rest)[1..] == rest;
    } else {
      SplitWord(word[1..], rest);
      var s := word + [SPACE] + rest;
      assert s[1..] == word[1..] + [SPACE] + rest;
      assert word == [word[0]] + word[1..];
    }
  }

  lemma {:induction false} SplitJoin(parts: seq<Bytes>)
    requires parts != []
    requires forall i | 0 <= i < |parts| :: SPACE !in parts[i]
    ensures Split(Join(parts)) == parts
  {
    hide Split;
    SplitWord(parts[0], if |parts| == 1 then [] else Join(parts[1..]));
    if |parts| > 1 {
      SplitJoin(parts[1..]);
      assert parts == [parts[0]] + parts[1..];
    }
  }

  lemma {:induction false} JoinIsOneLine(parts: seq<Bytes>)
    requires parts != []
    requires forall i | 0 <= i < |parts| :: PlainText(parts[i])
    ensures LF !in Join(parts) && CR !in Join(parts)
    ensures |parts| == 6 ==> |Join(parts)| == |parts[0]| + |parts[1]| + |parts[2]| + |parts[3]| + |parts[4]| + |parts[5]| + 5
  {
    if |parts| > 1 {
      JoinIsOneLine(parts[1..]);
      if |parts| == 6 {
        JoinLength(parts);
      }
    }
  }

  lemma JoinLength(parts: seq<Bytes>)
    requires |parts| == 6
    ensures |Join(parts)| == |parts[0]| + |parts[1]| + |parts[2]| + |parts[3]| + |parts[4]| + |parts[5]| + 5
  {
    var a, b, c, d, e := parts[1..], parts[2..], parts[3..], parts[4..], parts[5..];
    assert a[1..] == b && b[1..] == c && c[1..] == d && d[1..] == e;
    assert Join(e) == parts[5];
    assert |Join(d)| == |parts[4]| + 1 + |Join(e)|;
    assert |Join(c)| == |parts[3]| + 1 + |Join(d)|;
    assert |Join(b)| == |parts[2]| + 1 + |Join(c)|;
    assert |Join(a)| == |parts[1]| + 1 + |Join(b)|;
  }

  /** Reading a line that was written with a line end. */
  lemma LineReadsBack(tx: Texts, line: Bytes, tail: Bytes)
    requires LF !in line && CR !in line
    ensures ReadV1(tx, line + [CR, LF] + tail)
         == if |line| + 2 > MAX_V1_LEN then Failed(MalformedProxy, tail)
            else match ParseLine(tx, line)
                 case Ok(a) => Source(a, tail)
                 case Err(e) => if e == NoProxyHeader then NoSource(tail) else Failed(e, tail)
  {
    hide ParseLine;
    var input := line + [CR, LF] + tail;
    var n := |line| + 1;
    assert input[n] == LF && input[..n] == line + [CR];
    NewlineAt(input, n);
    assert input[..n + 1] == line + [CR, LF] && input[n + 1..] == tail;
    TrimLineEnd(line);
  }

  lemma KeyKeepsFamily(ip: Ip)
    requires |ip| in {4, 16}
    ensures IsV4(Key16(ip)) <==> IsV4(ip)
  {
  }

  lemma WordsDiffer()
    ensures PlainText(PROXY_WORD) && PlainText(TCP4_WORD) && PlainText(TCP6_WORD)
    ensures |PROXY_WORD| == 5 && |TCP4_WORD| == 4 && |TCP6_WORD| == 4 && |UNKNOWN_WORD| == 7
    ensures TCP4_WORD != TCP6_WORD && PROXY_WORD[0] == LETTER_P
  {
    assert TCP4_WORD[3] == 0x34 && TCP6_WORD[3] == 0x36;
  }

  /** Two addresses a version 1 header can carry: of one family, with ports in range. */
  predicate Expressible(client: Addr, proxy: Addr) {
    && |client.ip| in {4, 16} && |proxy.ip| in {4, 16} && (IsV4(client.ip) <==> IsV4(proxy.ip))
    && 0 <= client.port <= 65535 && 0 <= proxy.port <= 65535
  }

  lemma ParseWritten(tx: Texts, client: Addr, proxy: Addr)
    requires Sound(tx)
    ensures ParseLine(tx, Join(V1Parts(tx, client, proxy)))
         == if Expressible(client, proxy) then Ok(Addr(Key16(client.ip), client.port)) else Err(MalformedProxy)
  {
    hide Split, Join, IsV4, Key16;
    var parts := V1Parts(tx, client, proxy);
    WordsDiffer();
    PartsArePlain(tx, client, proxy);
    SplitJoin(parts);
    if |client.ip| in {4, 16} {
      KeyKeepsFamily(client.ip);
    }
    if |proxy.ip| in {4, 16} {
      KeyKeepsFamily(proxy.ip);
    }
  }

  lemma PartsArePlain(tx: Texts, client: Addr, proxy: Addr)
    requires Sound(tx)
    ensures var parts := V1Parts(tx, client, proxy);
            && (forall i | 0 <= i < |parts| :: PlainText(parts[i]))
            && (Expressible(client, proxy) ==>
                  |parts[0]| + |parts[1]| + |parts[2]| + |parts[3]| + |parts[4]| + |parts[5]| + 5 <= 102)
  {
    hide IsV4, PlainText;
    WordsDiffer();
  }

  /** A written version 1 header is read back, up to the sixteen-byte form of the address, exactly when
      both addresses are addresses of one family and both ports are in range; whatever else is written is
      rejected as malformed, and in every case the line is consumed. */
  lemma V1ReadsWire(tx: Texts, client: Addr, proxy: Addr, tail: Bytes)
    requires Sound(tx)
    ensures ReadHeader(tx, V1Wire(tx, client, proxy) + tail)
         == if Expressible(client, proxy)
            then Source(Addr(Key16(client.ip), client.port), tail)
            else Failed(MalformedProxy, tail)
  {
    hide ParseLine, ReadV1, ReadV2, Expressible, Key16, Sound;
    var parts := V1Parts(tx, client, proxy);
    var line := Join(parts);
    WordsDiffer();
    PartsArePlain(tx, client, proxy);
    JoinIsOneLine(parts);
    ParseWritten(tx, client, proxy);
    LineReadsBack(tx, line, tail);
    var input := V1Wire(tx, client, proxy) + tail;
    assert input == line + [CR, LF] + tail;
    assert line == parts[0] + [SPACE] + Join(parts[1..]);
    assert input[0] == parts[0][0];
  }

  // ---------------------------------------------------------------- the code

  /** Result and bytes left, as a reader reports them. */
  predicate Reports(want: HeaderRead, r: Result<Addr>, left: Bytes) {
    match want
    case Source(a, rest) => r == Ok(a) && left == rest
    case NoSource(rest) => r == Err(NoProxyHeader) && left == rest
    case Failed(e, rest) => r == Err(e) && left == rest
  }

  method SignatureMatches(hdr: Bytes) returns (ok: bool)
    requires |hdr| == 16
    ensures ok <==> hdr[..12] == V2_SIG
  {
    for i := 0 to 12
      invariant forall j | 0 <= j < i :: hdr[j] == V2_SIG[j]
    {
      if hdr[i] != V2_SIG[i] {
        assert hdr[..12][i] != V2_SIG[i];
        return false;
      }
    }
    assert forall j | 0 <= j < 12 :: hdr[..12][j] == V2_SIG[j];
    return true;
  }

  method ReadHeaderV2(c: Conn) returns (r: Result<Addr>)
    modifies c`input
    ensures Reports(ReadV2(old(c.input)), r, c.input)
  {
    var hdr := c.ReadFull(16);
    if hdr.Err? {
      return Err(hdr.error);
    }
    var h := hdr.value;
    assert h[..12] == old(c.input)[..12];
    var ok := SignatureMatches(h);
    if !ok {
      return Err(MalformedProxy);
    }
    if h[12] / 16 != 2 {
      return Err(MalformedProxy);
    }
    var cmd := h[12] % 16;
    if cmd != 0 && cmd != 1 {
      return Err(MalformedProxy);
    }
    var family := h[13] / 16;
    var block := c.ReadFull(FromU16(h[14], h[15]));
    if block.Err? {
      return Err(block.error);
    }
    var addr := block.value;
    if cmd == 0 {
      return Err(NoProxyHeader);
    }
    if family == 1 {
      if |addr| < 12 {
        return Err(MalformedProxy);
      }
      return Ok(Addr(addr[..4], FromU16(addr[8], addr[9])));
    }
    if family == 2 {
      if |addr| < 36 {
        return Err(MalformedProxy);
      }
      return Ok(Addr(addr[..16], FromU16(addr[32], addr[33])));
    }
    return Err(NoProxyHeader);
  }

  /** Reads up to and including the next newline. */
  method ReadString(c: Conn) returns (r: Result<Bytes>)
    modifies c`input
    ensures var i := FirstNewline(old(c.input));
            if i == |old(c.input)| then r == Err(EndOfStream) && c.input == []
            else r == Ok(old(c.input)[..i + 1]) && c.input == old(c.input)[i + 1..]
  {
    hide FirstNewline;
    ghost var all := c.input;
    var line: Bytes := [];
    while c.input != []
      invariant |line| <= |all| && line == all[..|line|] && c.input == all[|line|..]
      invariant LF !in line
      decreases |c.input|
    {
      var b := c.input[0];
      line := line + [b];
      c.input := c.input[1..];
      if b == LF {
        ghost var i := |line| - 1;
        assert all[..i] == line[..i] && all[i] == LF;
        NewlineAt(all, i);
        assert line == all[..i + 1] && c.input == all[i + 1..];
        return Ok(line);
      }
    }
    NoNewline(all);
    return Err(EndOfStream);
  }

  lemma {:induction false} NewlineAt(s: Bytes, i: nat)
    requires i < |s| && s[i] == LF && LF !in s[..i]
    ensures FirstNewline(s) == i
    decreases i
  {
    if i > 0 {
      assert s[..i][0] == s[0] && s[1..][..i - 1] == s[..i][1..];
      NewlineAt(s[1..], i - 1);
    }
  }

  lemma {:induction false} NoNewline(s: Bytes)
    requires LF !in s
    ensures FirstNewline(s) == |s|
  {
    if s != [] {
      NoNewline(s[1..]);
    }
  }

  method ReadHeaderV1(c: Conn, tx: Texts) returns (r: Result<Addr>)
    modifies c`input
    ensures Reports(ReadV1(tx, old(c.input)), r, c.input)
  {
    hide ParseLine, TrimLine, FirstNewline;
    var line := ReadString(c);
    if line.Err? {
      return Err(line.error);
    }
    if |line.value| > MAX_V1_LEN {
      return Err(MalformedProxy);
    }
    r := ParseLine(tx, TrimLine(line.value));
  }

  method ReadProxyHeader(c: Conn, tx: Texts) returns (r: Result<Addr>)
    modifies c`input
    ensures Reports(ReadHeader(tx, old(c.input)), r, c.input)
  {
    hide ReadV1, ReadV2;
    if c.input == [] {
      return Err(EndOfStream);
    }
    if c.input[0] == LETTER_P {
      r := ReadHeaderV1(c, tx);
    } else if c.input[0] == V2_SIG[0] {
      r := ReadHeaderV2(c);
    } else {
      r := Err(NoProxyHeader);
    }
  }

  lemma FailureIsNotAbsence(tx: Texts, input: Bytes)
    ensures ReadHeader(tx, input).Failed? ==> ReadHeader(tx, input).error != NoProxyHeader
  {
  }

  /** The peer's address stands in when there is no header or it names no source. */
  method AcceptWithProxy(c: Conn, tx: Texts, remote: Addr) returns (r: Result<Addr>)
    modifies c`input
    ensures match Accept(tx, old(c.input), remote)
            case Ok(a) => r == Ok(a.client) && c.input == a.stream
            case Err(e) => r == Err(e)
  {
    hide ReadHeader;
    FailureIsNotAbsence(tx, c.input);
    r := ReadProxyHeader(c, tx);
    if r == Err(NoProxyHeader) {
      r := Ok(remote);
    }
  }
}
