/**
  Headers, frames and streams (packet/header.go, transport/framing.go, transport/conn.go).

  `Frame` and `ReadFrame` say what one packet looks like on a connection and how it is read back;
  the class `Conn` is the code that does it over buffers it consumes and fills.
*/
module Framing {
  import opened Base
  import opened Obfuscation

  const HEADER_LENGTH := 12

  datatype Mode = Legacy | Tls

  /** How a connection protects bodies. */
  datatype Key = Key(mode: Mode, secret: Bytes, md5: Md5)

  datatype Header = Header(version: byte, ptype: byte, seqNo: byte, flags: byte, sessionId: uint32, length: uint32)

  datatype Packet = Packet(hdr: Header, body: Bytes)

  predicate ValidVersion(v: byte) {
    v == 0xc0 || v == 0xc1
  }

  /** The unencrypted flag is the lowest bit. */
  predicate Unencrypted(flags: byte) {
    flags % 2 == 1
  }

  function SetUnencrypted(flags: byte): byte {
    if Unencrypted(flags) then flags else flags + 1
  }

  // ---------------------------------------------------------------- header

  function HeaderWire(h: Header): (r: Bytes)
    ensures |r| == HEADER_LENGTH
  {
    [h.version, h.ptype, h.seqNo, h.flags] + U32(h.sessionId) + U32(h.length)
  }

  function HeaderParse(d: Bytes): Result<Header> {
    if |d| < HEADER_LENGTH then Err(InvalidHeader)
    else if !ValidVersion(d[0]) then Err(UnsupportedVersion)
    else Ok(Header(d[0], d[1], d[2], d[3], FromU32(d[4..8]), FromU32(d[8..12])))
  }

  lemma HeaderParseInvertsWire(h: Header, tail: Bytes)
    ensures HeaderParse(HeaderWire(h) + tail) == if ValidVersion(h.version) then Ok(h) else Err(UnsupportedVersion)
  {
    var d := HeaderWire(h) + tail;
    assert d[4..8] == U32(h.sessionId) && d[8..12] == U32(h.length);
    U32RoundTrip(h.sessionId);
    U32RoundTrip(h.length);
  }

  lemma HeaderWireInvertsParse(d: Bytes)
    requires |d| == HEADER_LENGTH && HeaderParse(d).Ok?
    ensures HeaderWire(HeaderParse(d).value) == d
  {
    FromU32RoundTrip(d[4..8]);
    FromU32RoundTrip(d[8..12]);
    assert d == [d[0], d[1], d[2], d[3]] + d[4..8] + d[8..12];
  }

  // ---------------------------------------------------------------- one packet

  /** The body as it travels; applying it twice gives the body back. */
  function Protect(k: Key, h: Header, body: Bytes): (r: Bytes)
    ensures |r| == |body|
  {
    if k.mode == Legacy && !Unencrypted(h.flags) && |body| > 0
    then Mask(k.md5, k.secret, h.sessionId, h.version, h.seqNo, body)
    else body
  }

  /** The header a peer sees: length filled in (32 bits), unencrypted bit forced under TLS. */
  function Sealed(k: Key, h: Header, body: Bytes): Header {
    h.(flags := if k.mode == Tls then SetUnencrypted(h.flags) else h.flags,
       length := |body| % 0x1_0000_0000)
  }

  function Frame(k: Key, h: Header, body: Bytes): (r: Bytes)
    ensures |r| == HEADER_LENGTH + |body|
  {
    HeaderWire(Sealed(k, h, body)) + Protect(k, h, body)
  }

  datatype Read = Got(packet: Packet, rest: Bytes) | Stopped(error: Error, rest: Bytes)

  /** Reads one packet from the front of `input`. A short read consumes what there is. */
  function ReadFrame(k: Key, input: Bytes): (r: Read)
    ensures r.Got? ==> |r.rest| + HEADER_LENGTH <= |input|
    ensures r.Got? ==> r.packet.hdr.length == |r.packet.body| <= MAX_PACKET_SIZE && ValidVersion(r.packet.hdr.version)
  {
    if |input| < HEADER_LENGTH then Stopped(EndOfStream, [])
    else
      var rest := input[HEADER_LENGTH..];
      match HeaderParse(input[..HEADER_LENGTH])
      case Err(e) => Stopped(e, rest)
      case Ok(h) =>
        if h.length > MAX_PACKET_SIZE then Stopped(InvalidLength, rest)
        else if |rest| < h.length then Stopped(EndOfStream, [])
        else Got(Packet(h, Protect(k, h, rest[..h.length])), rest[h.length..])
  }

  predicate Deliverable(h: Header, body: Bytes) {
    ValidVersion(h.version) && |body| <= MAX_PACKET_SIZE
  }

  lemma ProtectTwice(k: Key, h: Header, body: Bytes)
    ensures Protect(k, Sealed(k, h, body), Protect(k, h, body)) == body
  {
    MaskTwice(k.md5, k.secret, h.sessionId, h.version, h.seqNo, body);
  }

  /** The twelve bytes of a header: version, type, number, flags, session id, length. */
  lemma HeaderLayout(h: Header)
    ensures var w := HeaderWire(h);
            && w[0] == h.version && w[1] == h.ptype && w[2] == h.seqNo && w[3] == h.flags
            && FromU32(w[4..8]) == h.sessionId && FromU32(w[8..12]) == h.length
  {
    var w := HeaderWire(h);
    assert w[4..8] == U32(h.sessionId) && w[8..12] == U32(h.length);
    U32RoundTrip(h.sessionId);
    U32RoundTrip(h.length);
  }

  /** The body on the wire: combined with the pad of section 4.5 of RFC 8907 on a legacy connection, in the
      clear under TLS or with the unencrypted bit. */
  lemma BodyOnTheWire(k: Key, h: Header, body: Bytes, i: nat)
    requires i < |body|
    ensures var w := Frame(k, h, body)[HEADER_LENGTH + i];
            if k.mode == Legacy && h.flags % 2 == 0
            then w == Xor(body[i], Link(k.md5, U32(h.sessionId) + k.secret + [h.version, h.seqNo], i / 16)[i % 16])
            else w == body[i]
  {
    hide HeaderWire, Mask, Link, Xor;
    MaskAt(k.md5, k.secret, h.sessionId, h.version, h.seqNo, body, i);
  }

  /** A packet is read back, with whatever follows it untouched, exactly when its version is known
      and its body is no longer than the maximum. */
  lemma FrameReadsBack(k: Key, h: Header, body: Bytes, tail: Bytes)
    ensures ReadFrame(k, Frame(k, h, body) + tail) == Got(Packet(Sealed(k, h, body), body), tail)
            <==> Deliverable(h, body)
  {
    var s := Sealed(k, h, body);
    var out := Protect(k, h, body);
    var input := Frame(k, h, body) + tail;
    assert input[..HEADER_LENGTH] == HeaderWire(s) + [];
    assert input[HEADER_LENGTH..] == out + tail;
    HeaderParseInvertsWire(s, []);
    if Deliverable(h, body) {
      assert (out + tail)[..s.length] == out && (out + tail)[s.length..] == tail;
      ProtectTwice(k, h, body);
    }
  }

  /** No strict prefix of a frame decodes, except that of a body of 4 GiB or more, whose announced
      length is cut to 32 bits: such a prefix decodes once it holds the announced bytes. */
  lemma FramePrefixStops(k: Key, h: Header, body: Bytes, n: nat)
    requires n < |Frame(k, h, body)|
    ensures var announced := |body| % 0x1_0000_0000;
            ReadFrame(k, Frame(k, h, body)[..n]).Stopped? <==>
              !ValidVersion(h.version) || announced > MAX_PACKET_SIZE || n < HEADER_LENGTH + announced
    ensures |body| < 0x1_0000_0000 ==> ReadFrame(k, Frame(k, h, body)[..n]).Stopped?
  {
    if n >= HEADER_LENGTH {
      var s := Sealed(k, h, body);
      var input := Frame(k, h, body)[..n];
      assert input[..HEADER_LENGTH] == HeaderWire(s) + [];
      HeaderParseInvertsWire(s, []);
    }
  }

  // ---------------------------------------------------------------- a stream of packets

  function FrameAll(k: Key, ps: seq<Packet>): Bytes {
    if ps == [] then [] else Frame(k, ps[0].hdr, ps[0].body) + FrameAll(k, ps[1..])
  }

  function SealAll(k: Key, ps: seq<Packet>): (r: seq<Packet>)
    ensures |r| == |ps|
  {
    seq(|ps|, i requires 0 <= i < |ps| => Packet(Sealed(k, ps[i].hdr, ps[i].body), ps[i].body))
  }

  datatype Stream = Stream(packets: seq<Packet>, stop: Error)

  /** Every packet that can be read before the first failure, and that failure. */
  function ReadAll(k: Key, input: Bytes): Stream
    decreases |input|
  {
    match ReadFrame(k, input)
    case Stopped(e, _) => Stream([], e)
    case Got(p, rest) =>
      var tail := ReadAll(k, rest);
      Stream([p] + tail.packets, tail.stop)
  }

  lemma ReadAllStep(k: Key, p: Packet, rest: Bytes)
    requires Deliverable(p.hdr, p.body)
    ensures ReadAll(k, Frame(k, p.hdr, p.body) + rest)
         == Stream([Packet(Sealed(k, p.hdr, p.body), p.body)] + ReadAll(k, rest).packets, ReadAll(k, rest).stop)
  {
    FrameReadsBack(k, p.hdr, p.body, rest);
  }

  /** Framing is self-delimiting: reading what was written yields the packets written and then
      goes on exactly as reading the bytes that follow would. */
  lemma {:induction false} StreamReadsBack(k: Key, ps: seq<Packet>, tail: Bytes)
    requires forall i | 0 <= i < |ps| :: Deliverable(ps[i].hdr, ps[i].body)
    ensures ReadAll(k, FrameAll(k, ps) + tail)
         == Stream(SealAll(k, ps) + ReadAll(k, tail).packets, ReadAll(k, tail).stop)
  {
    hide ReadFrame, Frame;
    if ps == [] {
      assert FrameAll(k, ps) + tail == tail;
    } else {
      var after := FrameAll(k, ps[1..]) + tail;
      assert FrameAll(k, ps) + tail == Frame(k, ps[0].hdr, ps[0].body) + after;
      ReadAllStep(k, ps[0], after);
      StreamReadsBack(k, ps[1..], tail);
      SealAllStep(k, ps);
      var first := [SealAll(k, ps)[0]];
      assert first + (SealAll(k, ps[1..]) + ReadAll(k, tail).packets) == first + SealAll(k, ps[1..]) + ReadAll(k, tail).packets;
    }
  }

  lemma NothingToRead(k: Key)
    ensures ReadAll(k, []) == Stream([], EndOfStream)
  {
  }

  /** Only deliverable packets are ever read. */
  lemma {:induction false} ReadsDeliverable(k: Key, input: Bytes)
    ensures forall i | 0 <= i < |ReadAll(k, input).packets| ::
              Deliverable(ReadAll(k, input).packets[i].hdr, ReadAll(k, input).packets[i].body)
    decreases |input|
  {
    hide Protect;
    if ReadFrame(k, input).Got? {
      ReadsDeliverable(k, ReadFrame(k, input).rest);
    }
  }

  /** A list of packets reads back whole exactly when each of them is deliverable. */
  lemma StreamReadsBackIff(k: Key, ps: seq<Packet>)
    ensures ReadAll(k, FrameAll(k, ps)) == Stream(SealAll(k, ps), EndOfStream) <==>
            forall i | 0 <= i < |ps| :: Deliverable(ps[i].hdr, ps[i].body)
  {
    hide ReadAll, FrameAll;
    var read := ReadAll(k, FrameAll(k, ps));
    ReadsDeliverable(k, FrameAll(k, ps));
    if read == Stream(SealAll(k, ps), EndOfStream) {
      forall i | 0 <= i < |ps|
        ensures Deliverable(ps[i].hdr, ps[i].body)
      {
        assert read.packets[i] == Packet(Sealed(k, ps[i].hdr, ps[i].body), ps[i].body);
      }
    }
    if forall i | 0 <= i < |ps| :: Deliverable(ps[i].hdr, ps[i].body) {
      StreamReadsBack(k, ps, []);
      NothingToRead(k);
      assert FrameAll(k, ps) + [] == FrameAll(k, ps);
      assert SealAll(k, ps) + [] == SealAll(k, ps);
    }
  }

  lemma SealAllStep(k: Key, ps: seq<Packet>)
    requires ps != []
    ensures SealAll(k, ps) == [Packet(Sealed(k, ps[0].hdr, ps[0].body), ps[0].body)] + SealAll(k, ps[1..])
  {
  }

  lemma {:induction false} FrameAllAppend(k: Key, ps: seq<Packet>, qs: seq<Packet>)
    ensures FrameAll(k, ps + qs) == FrameAll(k, ps) + FrameAll(k, qs)
  {
    if ps == [] {
      assert ps + qs == qs;
    } else {
      assert (ps + qs)[1..] == ps[1..] + qs;
      FrameAllAppend(k, ps[1..], qs);
    }
  }

  // ---------------------------------------------------------------- the connection

  /** One end of a connection: bytes not yet read, and all bytes written so far. */
  class Conn {
    const key: Key
    const remote: Bytes
    var input: Bytes
    var output: Bytes

    constructor (k: Key, peer: Bytes, incoming: Bytes)
      ensures key == k && remote == peer && input == incoming && output == []
    {
      key, remote, input, output := k, peer, incoming, [];
    }

    /** Reads exactly n bytes; at the end of the stream it consumes what is left and fails. */
    method ReadFull(n: nat) returns (r: Result<Bytes>)
      modifies this`input
      ensures n <= |old(input)| ==> r == Ok(old(input)[..n]) && input == old(input)[n..]
      ensures n > |old(input)| ==> r == Err(EndOfStream) && input == []
    {
      if n > |input| {
        input := [];
        return Err(EndOfStream);
      }
      r := Ok(input[..n]);
      input := input[n..];
    }

    method ReadHeader() returns (r: Result<Header>)
      modifies this`input
      ensures |old(input)| < HEADER_LENGTH ==> r == Err(EndOfStream) && input == []
      ensures |old(input)| >= HEADER_LENGTH ==>
                && input == old(input)[HEADER_LENGTH..]
                && var p := HeaderParse(old(input)[..HEADER_LENGTH]);
                   r == if p.Ok? && p.value.length > MAX_PACKET_SIZE then Err(InvalidLength) else p
    {
      var buf := ReadFull(HEADER_LENGTH);
      if buf.Err? {
        return Err(buf.error);
      }
      r := HeaderParse(buf.value);
      if r.Ok? && r.value.length > MAX_PACKET_SIZE {
        r := Err(InvalidLength);
      }
    }

    method ReadBody(hdr: Header) returns (r: Result<Bytes>)
      modifies this`input
      ensures hdr.length <= |old(input)| ==> r == Ok(old(input)[..hdr.length]) && input == old(input)[hdr.length..]
      ensures hdr.length > |old(input)| ==> r == Err(EndOfStream) && input == []
    {
      if hdr.length == 0 {
        return Ok([]);
      }
      r := ReadFull(hdr.length);
    }

    method ReadPacket() returns (r: Result<Packet>)
      modifies this`input
      ensures match ReadFrame(key, old(input))
              case Got(p, rest) => r == Ok(p) && input == rest
              case Stopped(e, rest) => r == Err(e) && input == rest
    {
      var h := ReadHeader();
      if h.Err? {
        return Err(h.error);
      }
      var hdr := h.value;
      var b := ReadBody(hdr);
      if b.Err? {
        return Err(b.error);
      }
      var body := new byte[|b.value|](i requires 0 <= i < |b.value| => b.value[i]);
      assert body[..] == b.value;
      if key.mode == Legacy && !Unencrypted(hdr.flags) && body.Length > 0 {
        DeobfuscateInPlace(key.md5, body, key.secret, hdr.sessionId, hdr.version, hdr.seqNo);
      }
      return Ok(Packet(hdr, body[..]));
    }

    method WritePacket(hdr: Header, body: Bytes)
      modifies this`output
      ensures output == old(output) + Frame(key, hdr, body)
    {
      hide HeaderWire, Mask;
      var out := body;
      if key.mode == Legacy && !Unencrypted(hdr.flags) && |body| > 0 {
        out := Obfuscate(key.md5, body, key.secret, hdr.sessionId, hdr.version, hdr.seqNo);
      }
      var h := hdr;
      if key.mode == Tls {
        h := h.(flags := SetUnencrypted(h.flags));
      }
      h := h.(length := |out| % 0x1_0000_0000);
      var hb := HeaderWire(h);
      if |out| == 0 {
        output := output + hb;
        assert Frame(key, hdr, body) == hb;
        return;
      }
      var buf := [];
      buf := buf + hb;
      buf := buf + out;
      output := output + buf;
    }
  }
}
