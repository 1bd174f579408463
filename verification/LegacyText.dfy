/**
  The ASCII encoding of original TACACS over TCP (legacy/tcp.go; section 3 of RFC 1492): a request of
  four lines and a reply of one. Text is ASCII.
*/
module LegacyText {
  import opened Base
  import opened Text

  const NUL: byte := 0
  const CRLF: Bytes := [CR, LF]
  const VERSION_DIGIT: byte := 0x31

  const AUTH: Bytes := Ascii("AUTH")
  const CONNECT: Bytes := Ascii("CONNECT")
  const SLIPON: Bytes := Ascii("SLIPON")
  const SLIPOFF: Bytes := Ascii("SLIPOFF")

  datatype Request = Request(
    kind: Bytes, style: Bytes, destHost: Bytes, destPort: Bytes,
    username: Bytes, password: Bytes, line: Bytes)

  const EMPTY := Request([], [], [], [], [], [], [])

  // ---------------------------------------------------------------- text functions

  predicate Clean(f: Bytes) {
    CR !in f && LF !in f && NUL !in f
  }

  predicate AllClean(fs: seq<Bytes>) {
    forall i | 0 <= i < |fs| :: Clean(fs[i])
  }

  predicate IsSpace(b: byte) {
    b == SPACE || 9 <= b <= 13
  }

  predicate Word(s: Bytes) {
    s != [] && forall i | 0 <= i < |s| :: !IsSpace(s[i])
  }

  function UpperByte(b: byte): byte {
    if 0x61 <= b <= 0x7a then b - 0x20 else b
  }

  function Upper(s: Bytes): (r: Bytes)
    ensures |r| == |s|
  {
    seq(|s|, i requires 0 <= i < |s| => UpperByte(s[i]))
  }

  /** Splits on every line end. */
  function Lines(s: Bytes): (r: seq<Bytes>)
    ensures |r| >= 1
  {
    if s == [] then [[]]
    else if |s| >= 2 && s[0] == CR && s[1] == LF then [[]] + Lines(s[2..])
    else
      var rest := Lines(s[1..]);
      [[s[0]] + rest[0]] + rest[1..]
  }

  /** The length of the word at the front. */
  function WordLength(s: Bytes): (n: nat)
    ensures n <= |s|
    ensures forall i | 0 <= i < n :: !IsSpace(s[i])
    ensures n < |s| ==> IsSpace(s[n])
  {
    if s == [] || IsSpace(s[0]) then 0 else 1 + WordLength(s[1..])
  }

  /** The words between runs of white space. */
  function Fields(s: Bytes): (r: seq<Bytes>)
    ensures forall i | 0 <= i < |r| :: Word(r[i])
    decreases |s|
  {
    if s == [] then []
    else if IsSpace(s[0]) then Fields(s[1..])
    else
      var n := WordLength(s);
      [s[..n]] + Fields(s[n..])
  }

  // ---------------------------------------------------------------- request

  function AllFields(r: Request): seq<Bytes> {
    [r.kind, r.style, r.destHost, r.destPort, r.username, r.password, r.line]
  }

  predicate NamesHost(kind: Bytes) {
    kind == CONNECT || kind == SLIPON || kind == SLIPOFF
  }

  /** The parameters a request of this kind prints. */
  function Parameters(r: Request): seq<Bytes> {
    (if r.kind == AUTH && r.style != [] then [r.style] else [])
    + (if NamesHost(r.kind) && r.destHost != [] then [r.destHost] else [])
    + (if r.kind == CONNECT && r.destPort != [] then [r.destPort] else [])
  }

  function Spaced(words: seq<Bytes>): Bytes {
    if words == [] then [] else [SPACE] + words[0] + Spaced(words[1..])
  }

  function FirstLine(r: Request): Bytes {
    [VERSION_DIGIT] + Spaced([Upper(r.kind)] + Parameters(r))
  }

  function RequestText(r: Request): Bytes {
    FirstLine(r) + CRLF + r.username + CRLF + r.password + CRLF + r.line + CRLF
  }

  /** The receiver once the words after the version have been assigned by kind. */
  function Assigned(r: Request, kind: Bytes, rest: seq<Bytes>): Request {
    var q := r.(kind := kind);
    if kind == AUTH then
      if |rest| > 0 then q.(style := rest[0]) else q
    else if kind == CONNECT then
      var q' := if |rest| > 0 then q.(destHost := rest[0]) else q;
      if |rest| > 1 then q'.(destPort := rest[1]) else q'
    else if kind == SLIPON || kind == SLIPOFF then
      if |rest| > 0 then q.(destHost := rest[0]) else q
    else q
  }

  /** Decoding into a receiver that may hold something already. */
  function ParseRequest(r: Request, data: Bytes): Result<Request> {
    var lines := Lines(TrimLine(data));
    if |lines| < 4 then Err(InvalidPacket)
    else if !AllClean(lines) then Err(InvalidArgument)
    else
      var first := Fields(lines[0]);
      if |first| < 2 then Err(InvalidPacket)
      else Ok(Assigned(r, Upper(first[1]), first[2..]).(username := lines[1], password := lines[2], line := lines[3]))
  }

  // ---------------------------------------------------------------- lines and words read back

  lemma {:induction false} LineSplits(a: Bytes, rest: Bytes)
    requires CR !in a
    ensures Lines(a) == [a]
    ensures Lines(a + CRLF + rest) == [a] + Lines(rest)
    decreases |a|
  {
    if a == [] {
      var s := a + CRLF + rest;
      assert s == CRLF + rest && s[2..] == rest;
    } else {
      LineSplits(a[1..], rest);
      var s := a + CRLF + rest;
      assert s[1..] == a[1..] + CRLF + rest;
      assert a == [a[0]] + a[1..] && s[0] == a[0];
    }
  }

  lemma ThreeLines(a: Bytes, b: Bytes, c: Bytes)
    requires CR !in a && CR !in b
    ensures Lines(a + CRLF + b + CRLF + c) == [a, b] + Lines(c)
  {
    hide Lines;
    LineSplits(b, c);
    LineSplits(a, b + CRLF + c);
    assert a + CRLF + b + CRLF + c == a + CRLF + (b + CRLF + c);
  }

  lemma FourLines(a: Bytes, b: Bytes, c: Bytes, d: Bytes)
    requires CR !in a && CR !in b && CR !in c && CR !in d
    ensures Lines(a + CRLF + b + CRLF + c + CRLF + d) == [a, b, c, d]
  {
    hide Lines;
    var cd := c + CRLF + d;
    LineSplits(d, []);
    LineSplits(c, d);
    ThreeLines(a, b, cd);
    assert a + CRLF + b + CRLF + c + CRLF + d == a + CRLF + b + CRLF + cd;
    assert [a, b] + Lines(cd) == [a, b, c, d];
  }

  lemma FewerLines(a: Bytes, b: Bytes, c: Bytes)
    requires CR !in a && CR !in b && CR !in c
    ensures |Lines(a)| == 1 && |Lines(a + CRLF + b)| == 2 && |Lines(a + CRLF + b + CRLF + c)| == 3
  {
    hide Lines;
    LineSplits(c, []);
    LineSplits(b, []);
    LineSplits(a, b);
    ThreeLines(a, b, c);
  }

  lemma {:induction false} WordLengthIs(w: Bytes, rest: Bytes)
    requires forall i | 0 <= i < |w| :: !IsSpace(w[i])
    requires rest == [] || IsSpace(rest[0])
    ensures WordLength(w + rest) == |w|
  {
    if w == [] {
      assert w + rest == rest;
    } else {
      assert (w + rest)[1..] == w[1..] + rest;
      WordLengthIs(w[1..], rest);
    }
  }

  lemma FieldsStep(w: Bytes, rest: Bytes)
    requires Word(w) && (rest == [] || IsSpace(rest[0]))
    ensures Fields([SPACE] + w + rest) == [w] + Fields(rest)
  {
    hide WordLength;
    var s, t := [SPACE] + w + rest, w + rest;
    assert s[1..] == t;
    WordLengthIs(w, rest);
    assert t[..|w|] == w && t[|w|..] == rest;
    assert t[0] == w[0];
  }

  lemma {:induction false} FieldsOfSpaced(words: seq<Bytes>)
    requires forall i | 0 <= i < |words| :: Word(words[i])
    ensures Fields(Spaced(words)) == words
  {
    hide Word, WordLength;
    if words != [] {
      FieldsOfSpaced(words[1..]);
      FieldsStep(words[0], Spaced(words[1..]));
      assert words == [words[0]] + words[1..];
    }
  }

  lemma {:induction false} SpacedAppend(words: seq<Bytes>, w: Bytes)
    ensures Spaced(words + [w]) == Spaced(words) + [SPACE] + w
  {
    if words == [] {
      assert words + [w] == [w];
      assert Spaced([w]) == [SPACE] + w + Spaced([]);
    } else {
      assert (words + [w])[1..] == words[1..] + [w];
      SpacedAppend(words[1..], w);
    }
  }

  lemma {:induction false} SpacedIsClean(words: seq<Bytes>)
    requires AllClean(words)
    ensures Clean(Spaced(words))
  {
    if words != [] {
      assert Clean(words[0]);
      forall i | 0 <= i < |words[1..]|
        ensures Clean(words[1..][i])
      {
        assert words[1..][i] == words[i + 1];
      }
      SpacedIsClean(words[1..]);
    }
  }

  // ---------------------------------------------------------------- the request reads back

  /** Values the text can express: an upper-case word for the kind, words as parameters and only where
      the kind has them, and no port without a host. */
  predicate Expressible(r: Request) {
    && Word(r.kind) && Upper(r.kind) == r.kind
    && (r.style == [] || (r.kind == AUTH && Word(r.style)))
    && (r.destHost == [] || (NamesHost(r.kind) && Word(r.destHost)))
    && (r.destPort == [] || (r.kind == CONNECT && Word(r.destPort) && r.destHost != []))
  }

  lemma KindsDiffer()
    ensures AUTH != CONNECT && AUTH != SLIPON && AUTH != SLIPOFF
    ensures CONNECT != SLIPON && CONNECT != SLIPOFF && SLIPON != SLIPOFF
  {
    assert |AUTH| == 4 && |CONNECT| == 7 && |SLIPON| == 6 && |SLIPOFF| == 7;
    assert CONNECT[0] == 0x43 && SLIPOFF[0] == 0x53;
  }

  lemma FirstLineFields(r: Request)
    requires Expressible(r)
    ensures Fields(FirstLine(r)) == [[VERSION_DIGIT], r.kind] + Parameters(r)
    ensures Assigned(EMPTY, r.kind, Parameters(r)) == r.(username := [], password := [], line := [])
  {
    hide Upper, Fields, Spaced;
    KindsDiffer();
    var words := [r.kind] + Parameters(r);
    ParametersAreWords(r);
    FieldsOfSpaced(words);
    FirstFieldIsVersion(words);
    assert [[VERSION_DIGIT]] + words == [[VERSION_DIGIT], r.kind] + Parameters(r);
  }

  lemma ParametersAreWords(r: Request)
    requires Expressible(r)
    ensures var words := [r.kind] + Parameters(r); forall i | 0 <= i < |words| :: Word(words[i])
  {
  }

  lemma FirstFieldIsVersion(words: seq<Bytes>)
    requires words != []
    ensures Fields([VERSION_DIGIT] + Spaced(words)) == [[VERSION_DIGIT]] + Fields(Spaced(words))
  {
  }

  lemma ParametersClean(r: Request)
    requires AllClean(AllFields(r))
    ensures Clean(r.kind) && Clean(r.username) && Clean(r.password) && Clean(r.line) && AllClean(Parameters(r))
  {
    hide Clean;
    var fs := AllFields(r);
    assert Clean(fs[0]) && Clean(fs[1]) && Clean(fs[2]) && Clean(fs[3]) && Clean(fs[4]) && Clean(fs[5]) && Clean(fs[6]);
  }

  lemma UpperIsClean(s: Bytes)
    requires Clean(s)
    ensures Clean(Upper(s))
  {
  }

  lemma FirstLineClean(r: Request)
    requires AllClean(AllFields(r))
    ensures Clean(FirstLine(r)) && FirstLine(r) != []
  {
    hide Upper, Spaced;
    ParametersClean(r);
    UpperIsClean(r.kind);
    var words := [Upper(r.kind)] + Parameters(r);
    assert AllClean(words);
    SpacedIsClean(words);
  }

  /** The lines a reader finds: four when the last is not empty, fewer otherwise. */
  lemma LinesOfRequest(r: Request)
    requires AllClean(AllFields(r))
    ensures var lines := Lines(TrimLine(RequestText(r)));
            if r.line != [] then lines == [FirstLine(r), r.username, r.password, r.line] else |lines| < 4
  {
    hide FirstLine, Lines;
    ParametersClean(r);
    FirstLineClean(r);
    var a, b, c, d := FirstLine(r), r.username, r.password, r.line;
    FourLines(a, b, c, d);
    FewerLines(a, b, c);
    var three := a + CRLF + b + CRLF + c;
    assert RequestText(r) == three + CRLF + d + CRLF;
    if d != [] {
      TrimOnce(three + CRLF + d);
    } else {
      assert three + CRLF + [] + CRLF == three + CRLF + CRLF;
      TrimTwice(three);
      if c != [] {
        TrimKeeps(three);
      } else {
        assert three == a + CRLF + b + CRLF;
        TrimMore(a + CRLF + b);
        if b != [] {
          TrimKeeps(a + CRLF + b);
        } else {
          assert a + CRLF + b == a + CRLF;
          TrimMore(a);
          TrimKeeps(a);
        }
      }
    }
  }

  lemma TrimKeeps(s: Bytes)
    requires s == [] || s[|s| - 1] !in {CR, LF}
    ensures TrimLine(s) == s
  {
  }

  lemma TrimMore(s: Bytes)
    ensures TrimLine(s + CRLF) == TrimLine(s)
  {
    var a, b := s + CRLF, s + [CR];
    assert a[..|a| - 1] == b && b[..|b| - 1] == s;
    assert TrimLine(b) == TrimLine(s);
  }

  lemma TrimOnce(s: Bytes)
    requires s != [] && s[|s| - 1] !in {CR, LF}
    ensures TrimLine(s + CRLF) == s
  {
    TrimMore(s);
  }

  lemma TrimTwice(s: Bytes)
    ensures TrimLine(s + CRLF + CRLF) == TrimLine(s)
  {
    TrimMore(s + CRLF);
    TrimMore(s);
  }

  /** What decoding into a fresh value yields is always expressible. */
  lemma ParsedIsExpressible(data: Bytes)
    requires ParseRequest(EMPTY, data).Ok?
    ensures Expressible(ParseRequest(EMPTY, data).value)
  {
    hide Lines, TrimLine, Upper, UpperByte;
    KindsDiffer();
    var first := Fields(Lines(TrimLine(data))[0]);
    assert Word(first[1]);
    UpperOfWord(first[1]);
    assert forall i | 0 <= i < |first[2..]| :: first[2..][i] == first[i + 2];
  }

  lemma UpperOfWord(s: Bytes)
    requires Word(s)
    ensures Word(Upper(s)) && Upper(Upper(s)) == Upper(s)
  {
  }

  /** A request whose fields can be marshalled reads back into a fresh value exactly when it is
      expressible and its line is not empty. */
  lemma RequestReadsBackIff(r: Request)
    requires AllClean(AllFields(r))
    ensures ParseRequest(EMPTY, RequestText(r)) == Ok(r) <==> Expressible(r) && r.line != []
  {
    hide Lines, TrimLine, RequestText, Fields, Upper, Expressible, FirstLine;
    LinesOfRequest(r);
    if ParseRequest(EMPTY, RequestText(r)).Ok? {
      ParsedIsExpressible(RequestText(r));
    }
    if Expressible(r) && r.line != [] {
      FirstLineFields(r);
      FirstLineClean(r);
      ParametersClean(r);
      KindIsUpper(r);
      var first := [[VERSION_DIGIT], r.kind] + Parameters(r);
      assert first[1] == r.kind && first[2..] == Parameters(r);
      assert AllClean([FirstLine(r), r.username, r.password, r.line]);
    }
  }

  lemma KindIsUpper(r: Request)
    requires Expressible(r)
    ensures Upper(r.kind) == r.kind
  {
  }

  // ---------------------------------------------------------------- reply

  datatype Reply = Reply(code: Bytes, text: Bytes)

  predicate ReplyMarshals(r: Reply) {
    |r.code| == 3 && Clean(r.code) && Clean(r.text)
  }

  function ReplyText(r: Reply): Bytes {
    r.code + (if r.text != [] then [SPACE] + r.text else []) + CRLF
  }

  function ParseReply(r: Reply, data: Bytes): Result<Reply> {
    var line := TrimLine(data);
    if |line| < 3 then Err(InvalidPacket)
    else if |line| == 3 then Ok(r.(code := line))
    else Ok(Reply(line[..3], if line[3] == SPACE then line[4..] else line[3..]))
  }

  /** Every reply that marshals reads back into a fresh value. */
  lemma ReplyReadsBack(r: Reply)
    requires ReplyMarshals(r)
    ensures ParseReply(Reply([], []), ReplyText(r)) == Ok(r)
  {
    hide TrimLine;
    var line := r.code + if r.text != [] then [SPACE] + r.text else [];
    TrimOnce(line);
    assert ReplyText(r) == line + CRLF;
    if r.text != [] {
      assert line[..3] == r.code && line[3] == SPACE && line[4..] == r.text;
    } else {
      assert line == r.code;
    }
  }

  // ---------------------------------------------------------------- marshalling and unmarshalling

  method ValidateFields(fields: seq<Bytes>) returns (ok: bool)
    ensures ok <==> AllClean(fields)
  {
    for n := 0 to |fields|
      invariant AllClean(fields[..n])
    {
      if CR in fields[n] || LF in fields[n] || NUL in fields[n] {
        return false;
      }
    }
    assert fields[..|fields|] == fields;
    return true;
  }

  lemma SpacedOfNone()
    ensures Spaced([]) == []
  {
  }

  lemma AddWord(words: seq<Bytes>, w: Bytes, b: Bytes) returns (more: seq<Bytes>)
    requires b == [VERSION_DIGIT] + Spaced(words) + [SPACE] + w
    ensures more == words + [w] && b == [VERSION_DIGIT] + Spaced(more)
  {
    SpacedAppend(words, w);
    more := words + [w];
  }

  method MarshalFirstLine(r: Request) returns (b: Bytes)
    ensures b == FirstLine(r)
  {
    hide Upper, Spaced;
    SpacedOfNone();
    b := [VERSION_DIGIT];
    b := b + [SPACE];
    b := b + Upper(r.kind);
    ghost var words := AddWord([], Upper(r.kind), b);
    if r.kind == AUTH && r.style != [] {
      b := b + [SPACE];
      b := b + r.style;
      words := AddWord(words, r.style, b);
    }
    if (r.kind == CONNECT || r.kind == SLIPON || r.kind == SLIPOFF) && r.destHost != [] {
      b := b + [SPACE];
      b := b + r.destHost;
      words := AddWord(words, r.destHost, b);
    }
    if r.kind == CONNECT && r.destPort != [] {
      b := b + [SPACE];
      b := b + r.destPort;
      words := AddWord(words, r.destPort, b);
    }
    assert words == [Upper(r.kind)] + Parameters(r);
  }

  method MarshalRequest(r: Request) returns (res: Result<Bytes>)
    ensures res == if AllClean(AllFields(r)) then Ok(RequestText(r)) else Err(InvalidArgument)
  {
    hide AllClean, FirstLine;
    var ok := ValidateFields([r.kind, r.style, r.destHost, r.destPort, r.username, r.password, r.line]);
    if !ok {
      return Err(InvalidArgument);
    }
    var b := MarshalFirstLine(r);
    b := b + CRLF;
    b := b + r.username;
    b := b + CRLF;
    b := b + r.password;
    b := b + CRLF;
    b := b + r.line;
    b := b + CRLF;
    return Ok(b);
  }

  /** Fields the text does not name keep what the receiver held. */
  method UnmarshalRequest(r: Ref<Request>, data: Bytes) returns (err: Option<Error>)
    modifies r
    ensures match ParseRequest(old(r.value), data)
            case Ok(v) => err == None && r.value == v
            case Err(e) => err == Some(e) && r.value == old(r.value)
  {
    hide Lines, TrimLine, Fields, Upper;
    KindsDiffer();
    var lines := Lines(TrimLine(data));
    if |lines| < 4 {
      return Some(InvalidPacket);
    }
    var ok := ValidateFields(lines);
    if !ok {
      return Some(InvalidArgument);
    }
    var first := Fields(lines[0]);
    if |first| < 2 {
      return Some(InvalidPacket);
    }
    r.value := r.value.(kind := Upper(first[1]));
    var rest := first[2..];
    if r.value.kind == AUTH {
      if |rest| > 0 {
        r.value := r.value.(style := rest[0]);
      }
    } else if r.value.kind == CONNECT {
      if |rest| > 0 {
        r.value := r.value.(destHost := rest[0]);
      }
      if |rest| > 1 {
        r.value := r.value.(destPort := rest[1]);
      }
    } else if r.value.kind == SLIPON || r.value.kind == SLIPOFF {
      if |rest| > 0 {
        r.value := r.value.(destHost := rest[0]);
      }
    }
    r.value := r.value.(username := lines[1]);
    r.value := r.value.(password := lines[2]);
    r.value := r.value.(line := lines[3]);
    return None;
  }

  method MarshalReply(r: Reply) returns (res: Result<Bytes>)
    ensures res == if ReplyMarshals(r) then Ok(ReplyText(r)) else Err(InvalidArgument)
  {
    if |r.code| != 3 {
      return Err(InvalidArgument);
    }
    var ok := ValidateFields([r.code, r.text]);
    if !ok {
      assert !Clean(r.code) || !Clean(r.text);
      return Err(InvalidArgument);
    }
    assert [r.code, r.text][0] == r.code && [r.code, r.text][1] == r.text;
    var b := r.code;
    if r.text != [] {
      b := b + [SPACE];
      b := b + r.text;
    }
    b := b + CRLF;
    assert b == ReplyText(r);
    return Ok(b);
  }

  method UnmarshalReply(r: Ref<Reply>, data: Bytes) returns (err: Option<Error>)
    modifies r
    ensures match ParseReply(old(r.value), data)
            case Ok(v) => err == None && r.value == v
            case Err(e) => err == Some(e) && r.value == old(r.value)
  {
    var line := TrimLine(data);
    if |line| < 3 {
      return Some(InvalidPacket);
    }
    r.value := r.value.(code := line[..3]);
    if |line| > 3 {
      var rest := line[3..];
      if rest[0] == SPACE {
        rest := rest[1..];
      }
      r.value := r.value.(text := rest);
    }
    return None;
  }

  // ---------------------------------------------------------------- the text itself

  /** The first line: the version, the kind in upper case, then the style of an AUTH, the host of a SLIPON or
      SLIPOFF, or the host and port of a CONNECT. */
  lemma FirstLineIs(r: Request)
    ensures r.kind == AUTH && r.style != [] ==> FirstLine(r) == [0x31, 0x20] + Upper(r.kind) + [0x20] + r.style
    ensures (r.kind == SLIPON || r.kind == SLIPOFF) && r.destHost != [] ==> FirstLine(r) == [0x31, 0x20] + Upper(r.kind) + [0x20] + r.destHost
    ensures r.kind == CONNECT && r.destHost != [] && r.destPort != [] ==>
              FirstLine(r) == [0x31, 0x20] + Upper(r.kind) + [0x20] + r.destHost + [0x20] + r.destPort
    ensures r.kind !in {AUTH, CONNECT, SLIPON, SLIPOFF} ==> FirstLine(r) == [0x31, 0x20] + Upper(r.kind)
  {
    hide Upper, Spaced;
    KindsDiffer();
    var k := Upper(r.kind);
    SpacedOfNone();
    SpacedAppend([], k);
    assert [] + [k] == [k];
    if r.kind == CONNECT && r.destHost != [] && r.destPort != [] {
      SpacedAppend([k], r.destHost);
      SpacedAppend([k] + [r.destHost], r.destPort);
      assert [k] + Parameters(r) == [k] + [r.destHost] + [r.destPort];
    } else if r.kind == AUTH && r.style != [] {
      SpacedAppend([k], r.style);
      assert [k] + Parameters(r) == [k] + [r.style];
    } else if (r.kind == SLIPON || r.kind == SLIPOFF) && r.destHost != [] {
      SpacedAppend([k], r.destHost);
      assert [k] + Parameters(r) == [k] + [r.destHost];
    } else if r.kind !in {AUTH, CONNECT, SLIPON, SLIPOFF} {
      assert [k] + Parameters(r) == [k];
    }
  }

  /** Upper-casing leaves no lower-case letter and changes nothing else. */
  lemma UpperIs(s: Bytes, i: nat)
    requires i < |s|
    ensures var u := Upper(s)[i];
            && !(0x61 <= u <= 0x7a)
            && (u == s[i] || (0x61 <= s[i] <= 0x7a && u + 0x20 == s[i]))
  {
  }

  /** Words are separated by blanks, tabs and the other white space of ASCII. */
  lemma SpaceIs(b: byte)
    ensures IsSpace(b) <==> b as char in {' ', '\t', '\n', 11 as char, 12 as char, '\r'}
  {
  }
}
