/**
  The marshalling code itself (packet/args.go, packet/authen.go, packet/author.go, packet/acct.go):
  buffers written at a moving position, receivers filled in field by field. Each method is proved
  against the layout in `Bodies`.
*/
module Marshal {
  import opened Base
  import opened Layout
  import opened Bodies

  // ---------------------------------------------------------------- buffer helpers

  /** Go's `copy(b[pos:], s)` into a buffer with enough room, returning the new position. */
  method CopyAt(b: array<byte>, pos: nat, s: Bytes) returns (newPos: nat)
    requires pos + |s| <= b.Length
    modifies b
    ensures newPos == pos + |s|
    ensures b[..newPos] == old(b[..pos]) + s
  {
    for i := 0 to |s|
      invariant b[..pos + i] == old(b[..pos]) + s[..i]
    {
      b[pos + i] := s[i];
      assert b[..pos + i + 1] == b[..pos + i] + [s[i]];
      assert s[..i + 1] == s[..i] + [s[i]];
    }
    newPos := pos + |s|;
    assert s[..|s|] == s;
  }

  /** Copies the arguments one after another. */
  method CopyAll(b: array<byte>, pos: nat, args: seq<Bytes>) returns (newPos: nat)
    requires pos + Total(Lengths(args)) <= b.Length
    modifies b
    ensures newPos == pos + Total(Lengths(args))
    ensures b[..newPos] == old(b[..pos]) + Flatten(args)
  {
    newPos := pos;
    for i := 0 to |args|
      invariant newPos + Total(Lengths(args[i..])) == pos + Total(Lengths(args))
      invariant b[..newPos] == old(b[..pos]) + Flatten(args[..i])
    {
      NextField(args, i);
      newPos := CopyAt(b, newPos, args[i]);
    }
    assert args[..|args|] == args;
  }

  lemma NextField(args: seq<Bytes>, i: nat)
    requires i < |args|
    ensures Total(Lengths(args[i..])) == |args[i]| + Total(Lengths(args[i + 1..]))
    ensures Flatten(args[..i + 1]) == Flatten(args[..i]) + args[i]
  {
    assert Lengths(args[i..])[1..] == Lengths(args[i + 1..]);
    assert args[..i + 1] == args[..i] + [args[i]];
    FlattenAppend(args[..i], [args[i]]);
    assert Flatten([args[i]]) == args[i];
  }

  method CheckByteLens(args: seq<Bytes>) returns (ok: bool)
    ensures ok <==> AllShort(args)
  {
    for i := 0 to |args|
      invariant AllShort(args[..i])
    {
      if |args[i]| > 0xff {
        return false;
      }
      assert args[..i + 1] == args[..i] + [args[i]];
    }
    assert args[..|args|] == args;
    return true;
  }

  method TotalBytes(args: seq<Bytes>) returns (total: nat)
    ensures total == Total(Lengths(args))
  {
    total := 0;
    for i := 0 to |args|
      invariant total + Total(Lengths(args[i..])) == Total(Lengths(args))
    {
      NextField(args, i);
      total := total + |args[i]|;
    }
  }

  function ArgLengthsOutcome(pos: nat, args: seq<Bytes>): Result<nat> {
    if |args| > 255 then Err(TooManyArguments)
    else if !AllShort(args) then Err(InvalidLength)
    else Ok(pos + 1 + |args|)
  }

  /** The position of the first argument that is too long, or the number of arguments. */
  function FirstLong(args: seq<Bytes>): (i: nat)
    ensures i <= |args|
    ensures forall j | 0 <= j < i :: |args[j]| <= 255
    ensures i < |args| ==> |args[i]| > 255
  {
    if args == [] || |args[0]| > 255 then 0 else 1 + FirstLong(args[1..])
  }

  /** Writes the argument count and the length of each argument, and returns the position after them;
      on an error what was written before `pos` is still as it was. */
  method EncodeArgLengths(b: array<byte>, pos: nat, args: seq<Bytes>) returns (r: Result<nat>)
    requires |args| <= 255 ==> pos + 1 + FirstLong(args) <= b.Length
    modifies b
    ensures r == ArgLengthsOutcome(pos, args)
    ensures r.Ok? ==> b[..r.value] == old(b[..pos]) + [|args|] + LengthBytes(args)
    ensures pos <= b.Length ==> b[..pos] == old(b[..pos])
  {
    if |args| > 0xff {
      return Err(TooManyArguments);
    }
    b[pos] := |args|;
    var newPos := pos + 1;
    for i := 0 to |args|
      invariant newPos == pos + 1 + i
      invariant AllShort(args[..i])
      invariant b[..newPos] == old(b[..pos]) + [|args|] + LengthBytes(args[..i])
    {
      if |args[i]| > 0xff {
        assert b[..pos] == b[..newPos][..pos];
        return Err(InvalidLength);
      }
      b[newPos] := |args[i]|;
      assert b[..newPos + 1] == b[..newPos] + [|args[i]|];
      assert args[..i + 1] == args[..i] + [args[i]];
      assert LengthBytes(args[..i + 1]) == LengthBytes(args[..i]) + [|args[i]|];
      newPos := newPos + 1;
    }
    assert args[..|args|] == args;
    assert b[..pos] == b[..newPos][..pos];
    return Ok(newPos);
  }

  /** Reads the argument count at `pos` and the lengths that follow it. */
  method DecodeArgLengths(data: Bytes, pos: nat) returns (r: Result<Bytes>, newPos: nat)
    ensures r.Ok? <==> pos < |data| && pos + 1 + data[pos] as int <= |data|
    ensures r.Ok? ==> newPos == pos + 1 + data[pos] as int && r.value == data[pos + 1..newPos]
    ensures r.Err? ==> r.error == InvalidPacket && newPos == if pos < |data| then pos + 1 else pos
  {
    newPos := pos;
    if pos >= |data| {
      return Err(InvalidPacket), newPos;
    }
    var n := data[pos];
    newPos := pos + 1;
    if newPos + n as int > |data| {
      return Err(InvalidPacket), newPos;
    }
    var lengths := [];
    for i := 0 to n
      invariant newPos == pos + 1 + i
      invariant lengths == data[pos + 1..newPos]
    {
      lengths := lengths + [data[newPos]];
      newPos := newPos + 1;
    }
    r := Ok(lengths);
  }

  method SumLengths(lengths: Bytes) returns (total: nat)
    ensures total == Total(lengths)
  {
    total := 0;
    for i := 0 to |lengths|
      invariant total + Total(lengths[i..]) == Total(lengths)
    {
      assert lengths[i..][1..] == lengths[i + 1..];
      total := total + lengths[i];
    }
  }

  /** Slices the arguments out of the rest of the buffer. */
  method SliceArgs(data: Bytes, start: nat, lengths: Bytes) returns (args: seq<Bytes>)
    requires start + Total(lengths) == |data|
    ensures args == Cut(data[start..], lengths)
  {
    hide Cut, Total;
    args := [];
    var pos := start;
    assert lengths[0..] == lengths;
    for i := 0 to |lengths|
      invariant start <= pos && pos + Total(lengths[i..]) == |data|
      invariant args + Cut(data[pos..], lengths[i..]) == Cut(data[start..], lengths)
    {
      var l := lengths[i] as int;
      SliceStep(data, pos, lengths, i, args);
      args := args + [data[pos..pos + l]];
      pos := pos + l;
    }
    assert |Cut(data[pos..], lengths[|lengths|..])| == 0;
  }

  lemma SliceStep(data: Bytes, pos: nat, lengths: Bytes, i: nat, done: seq<Bytes>)
    requires i < |lengths| && pos + Total(lengths[i..]) == |data|
    ensures var l := lengths[i] as int;
            && pos + l + Total(lengths[i + 1..]) == |data|
            && done + Cut(data[pos..], lengths[i..]) == done + [data[pos..pos + l]] + Cut(data[pos + l..], lengths[i + 1..])
  {
    var l := lengths[i] as int;
    assert lengths[i..] == [l] + lengths[i + 1..];
    assert lengths[i..][1..] == lengths[i + 1..];
    CutAt(data, pos, l, lengths[i + 1..]);
  }

  // ---------------------------------------------------------------- authentication bodies

  method MarshalAuthenStart(a: AuthenStart) returns (r: Result<Bytes>)
    ensures r == if AuthenStartFits(a) then Ok(AuthenStartWire(a)) else Err(InvalidLength)
  {
    if |a.user| > 0xff || |a.port| > 0xff || |a.remAddr| > 0xff || |a.data| > 0xff {
      assert !AllShort(StartFields(a)) by {
        assert StartFields(a)[0] == a.user && StartFields(a)[1] == a.port;
        assert StartFields(a)[2] == a.remAddr && StartFields(a)[3] == a.data;
      }
      return Err(InvalidLength);
    }
    var b := new byte[8 + |a.user| + |a.port| + |a.remAddr| + |a.data|];
    b[0], b[1], b[2], b[3] := a.action, a.privLvl, a.authenType, a.service;
    b[4], b[5], b[6], b[7] := |a.user|, |a.port|, |a.remAddr|, |a.data|;
    assert b[..8] == [a.action, a.privLvl, a.authenType, a.service] + LengthBytes(StartFields(a));
    var pos := WriteFields(b, 8, a.user, a.port, a.remAddr, [a.data]);
    assert b[..pos] == b[..];
    assert [a.user, a.port, a.remAddr] + [a.data] == StartFields(a);
    return Ok(b[..]);
  }

  method UnmarshalAuthenStart(a: Ref<AuthenStart>, data: Bytes) returns (e: Option<Error>)
    modifies a
    ensures match AuthenStartParse(data)
            case Ok(v) => e == None && a.value == v
            case Err(err) => e == Some(err) && StartFields(a.value) == StartFields(old(a.value))
  {
    if |data| < 8 {
      return Some(InvalidPacket);
    }
    a.value := a.value.(action := data[0], privLvl := data[1], authenType := data[2], service := data[3]);
    var ul, pl, rl, dl := data[4] as int, data[5] as int, data[6] as int, data[7] as int;
    assert data[4..8] == [ul, pl, rl] + [dl];
    TotalThree(ul, pl, rl, [dl]);
    if 8 + ul + pl + rl + dl != |data| {
      return Some(InvalidLength);
    }
    var user, port, remAddr, rest := SliceFields(data, 8, ul, pl, rl, [data[7]]);
    a.value := a.value.(user := user, port := port, remAddr := remAddr, data := rest[0]);
    return None;
  }

  method MarshalAuthenContinue(a: AuthenContinue) returns (r: Result<Bytes>)
    ensures r == if AuthenContinueFits(a) then Ok(AuthenContinueWire(a)) else Err(InvalidLength)
  {
    if |a.userMsg| > 0xffff || |a.data| > 0xffff {
      return Err(InvalidLength);
    }
    var b := new byte[5 + |a.userMsg| + |a.data|];
    b[0], b[1] := |a.userMsg| / 256, |a.userMsg| % 256;
    b[2], b[3] := |a.data| / 256, |a.data| % 256;
    b[4] := a.flags;
    assert b[..5] == U16(|a.userMsg|) + U16(|a.data|) + [a.flags];
    var pos := CopyAt(b, 5, a.userMsg);
    pos := CopyAt(b, pos, a.data);
    assert b[..pos] == b[..];
    return Ok(b[..]);
  }

  method UnmarshalAuthenContinue(a: Ref<AuthenContinue>, data: Bytes) returns (e: Option<Error>)
    modifies a
    ensures match AuthenContinueParse(data)
            case Ok(v) => e == None && a.value == v
            case Err(err) => e == Some(err) && a.value == old(a.value)
  {
    if |data| < 5 {
      return Some(InvalidPacket);
    }
    var ul, dl := FromU16(data[0], data[1]), FromU16(data[2], data[3]);
    if 5 + ul + dl != |data| {
      return Some(InvalidLength);
    }
    a.value := a.value.(flags := data[4]);
    var pos := 5;
    a.value := a.value.(userMsg := data[pos..pos + ul]);
    pos := pos + ul;
    a.value := a.value.(data := data[pos..pos + dl]);
    return None;
  }

  method MarshalAuthenReply(a: AuthenReply) returns (r: Result<Bytes>)
    ensures r == if AuthenReplyFits(a) then Ok(AuthenReplyWire(a)) else Err(InvalidLength)
  {
    if |a.serverMsg| > 0xffff || |a.data| > 0xffff {
      return Err(InvalidLength);
    }
    var b := new byte[6 + |a.serverMsg| + |a.data|];
    b[0], b[1] := a.status, a.flags;
    b[2], b[3] := |a.serverMsg| / 256, |a.serverMsg| % 256;
    b[4], b[5] := |a.data| / 256, |a.data| % 256;
    assert b[..6] == [a.status, a.flags] + U16(|a.serverMsg|) + U16(|a.data|);
    var pos := CopyAt(b, 6, a.serverMsg);
    pos := CopyAt(b, pos, a.data);
    assert b[..pos] == b[..];
    return Ok(b[..]);
  }

  method UnmarshalAuthenReply(a: Ref<AuthenReply>, data: Bytes) returns (e: Option<Error>)
    modifies a
    ensures match AuthenReplyParse(data)
            case Ok(v) => e == None && a.value == v
            case Err(err) => e == Some(err) && a.value.serverMsg == old(a.value).serverMsg && a.value.data == old(a.value).data
  {
    if |data| < 6 {
      return Some(InvalidPacket);
    }
    a.value := a.value.(status := data[0], flags := data[1]);
    var ml, dl := FromU16(data[2], data[3]), FromU16(data[4], data[5]);
    if 6 + ml + dl != |data| {
      return Some(InvalidLength);
    }
    var pos := 6;
    a.value := a.value.(serverMsg := data[pos..pos + ml]);
    pos := pos + ml;
    a.value := a.value.(data := data[pos..pos + dl]);
    return None;
  }

  // ---------------------------------------------------------------- authorization bodies

  /** What marshalling an authorization request yields: a field that is too long is reported first. */
  function AuthorRequestOutcome(a: AuthorRequest): Result<Bytes> {
    if !AllShort(AuthorFields(a)) || !AllShort(a.args) then Err(InvalidLength)
    else if |a.args| > 255 then Err(TooManyArguments)
    else Ok(AuthorRequestWire(a))
  }

  method MarshalAuthorRequest(a: AuthorRequest) returns (r: Result<Bytes>)
    ensures r == AuthorRequestOutcome(a)
  {
    assert AllShort(AuthorFields(a)) <==> |a.user| <= 255 && |a.port| <= 255 && |a.remAddr| <= 255 by {
      AllShortThree(a.user, a.port, a.remAddr);
    }
    if |a.user| > 0xff || |a.port| > 0xff || |a.remAddr| > 0xff {
      return Err(InvalidLength);
    }
    var ok := CheckByteLens(a.args);
    if !ok {
      return Err(InvalidLength);
    }
    if |a.args| > 0xff {
      return Err(TooManyArguments);
    }
    var argBytes := TotalBytes(a.args);
    var b := new byte[8 + |a.args| + |a.user| + |a.port| + |a.remAddr| + argBytes];
    b[0], b[1], b[2], b[3] := a.method_, a.privLvl, a.authenType, a.service;
    b[4], b[5], b[6] := |a.user|, |a.port|, |a.remAddr|;
    assert b[..7] == [a.method_, a.privLvl, a.authenType, a.service] + LengthBytes(AuthorFields(a));
    var table := EncodeArgLengths(b, 7, a.args);
    // The lengths were checked above, so the table is always written.
    var pos := WriteFields(b, table.value, a.user, a.port, a.remAddr, a.args);
    assert b[..pos] == b[..];
    return Ok(b[..]);
  }

  lemma AllShortThree(p: Bytes, q: Bytes, s: Bytes)
    ensures AllShort([p, q, s]) <==> |p| <= 255 && |q| <= 255 && |s| <= 255
  {
    var ps := [p, q, s];
    assert ps[0] == p && ps[1] == q && ps[2] == s;
  }

  /** The tail that authorization and accounting requests share: user, port, address, arguments. */
  method WriteFields(b: array<byte>, start: nat, user: Bytes, port: Bytes, remAddr: Bytes, args: seq<Bytes>)
    returns (pos: nat)
    requires start + |user| + |port| + |remAddr| + Total(Lengths(args)) <= b.Length
    modifies b
    ensures pos == start + |user| + |port| + |remAddr| + Total(Lengths(args))
    ensures b[..pos] == old(b[..start]) + Flatten([user, port, remAddr] + args)
  {
    pos := CopyAt(b, start, user);
    pos := CopyAt(b, pos, port);
    pos := CopyAt(b, pos, remAddr);
    pos := CopyAll(b, pos, args);
    FlattenAppend([user, port, remAddr], args);
    FlattenFour(user, port, remAddr, []);
  }

  /** Slices user, port, address and arguments from consecutive positions. */
  method SliceFields(data: Bytes, start: nat, ul: nat, pl: nat, rl: nat, lengths: Bytes)
    returns (user: Bytes, port: Bytes, remAddr: Bytes, args: seq<Bytes>)
    requires start + Total([ul, pl, rl] + lengths) == |data|
    ensures [user, port, remAddr] + args == Cut(data[start..], [ul, pl, rl] + lengths)
  {
    TotalThree(ul, pl, rl, lengths);
    CutThree(data, start, ul, pl, rl, lengths);
    var pos := start;
    user := data[pos..pos + ul];
    pos := pos + ul;
    port := data[pos..pos + pl];
    pos := pos + pl;
    remAddr := data[pos..pos + rl];
    pos := pos + rl;
    args := SliceArgs(data, pos, lengths);
  }

  method UnmarshalAuthorRequest(a: Ref<AuthorRequest>, data: Bytes) returns (e: Option<Error>)
    modifies a
    ensures match AuthorRequestParse(data)
            case Ok(v) => e == None && a.value == v
            case Err(err) => e == Some(err) && AuthorFields(a.value) == AuthorFields(old(a.value)) && a.value.args == old(a.value).args
  {
    if |data| < 8 {
      return Some(InvalidPacket);
    }
    a.value := a.value.(method_ := data[0], privLvl := data[1], authenType := data[2], service := data[3]);
    var ul, pl, rl := data[4] as int, data[5] as int, data[6] as int;
    var lengths, pos := DecodeArgLengths(data, 7);
    if lengths.Err? {
      return Some(lengths.error);
    }
    var argTotal := SumLengths(lengths.value);
    assert data[4..7] == [ul, pl, rl];
    TotalThree(ul, pl, rl, lengths.value);
    if pos + ul + pl + rl + argTotal != |data| {
      return Some(InvalidLength);
    }
    var user, port, remAddr, args := SliceFields(data, pos, ul, pl, rl, lengths.value);
    a.value := a.value.(user := user, port := port, remAddr := remAddr, args := args);
    return None;
  }

  function AuthorReplyOutcome(a: AuthorReply): Result<Bytes> {
    if |a.serverMsg| > 0xffff || |a.data| > 0xffff || !AllShort(a.args) then Err(InvalidLength)
    else if |a.args| > 255 then Err(TooManyArguments)
    else Ok(AuthorReplyWire(a))
  }

  method MarshalAuthorReply(a: AuthorReply) returns (r: Result<Bytes>)
    ensures r == AuthorReplyOutcome(a)
  {
    if |a.serverMsg| > 0xffff || |a.data| > 0xffff {
      return Err(InvalidLength);
    }
    var ok := CheckByteLens(a.args);
    if !ok {
      return Err(InvalidLength);
    }
    if |a.args| > 0xff {
      return Err(TooManyArguments);
    }
    var argBytes := TotalBytes(a.args);
    var b := new byte[6 + |a.args| + |a.serverMsg| + |a.data| + argBytes];
    b[0], b[1] := a.status, |a.args|;
    b[2], b[3] := |a.serverMsg| / 256, |a.serverMsg| % 256;
    b[4], b[5] := |a.data| / 256, |a.data| % 256;
    assert b[..6] == [a.status, |a.args|] + U16(|a.serverMsg|) + U16(|a.data|);
    var pos := WriteLengths(b, 6, a.args);
    pos := WriteReplyFields(b, pos, a.serverMsg, a.data, a.args);
    assert b[..pos] == b[..];
    return Ok(b[..]);
  }

  method WriteReplyFields(b: array<byte>, start: nat, msg: Bytes, data: Bytes, args: seq<Bytes>) returns (pos: nat)
    requires start + |msg| + |data| + Total(Lengths(args)) <= b.Length
    modifies b
    ensures pos == start + |msg| + |data| + Total(Lengths(args))
    ensures b[..pos] == old(b[..start]) + Flatten([msg, data] + args)
  {
    pos := CopyAt(b, start, msg);
    pos := CopyAt(b, pos, data);
    pos := CopyAll(b, pos, args);
    FlattenAppend([msg, data], args);
    FlattenTwo(msg, data);
  }

  /** The length bytes of a reply, whose count was already written. */
  method WriteLengths(b: array<byte>, start: nat, args: seq<Bytes>) returns (pos: nat)
    requires AllShort(args) && start + |args| <= b.Length
    modifies b
    ensures pos == start + |args|
    ensures b[..pos] == old(b[..start]) + LengthBytes(args)
  {
    pos := start;
    for i := 0 to |args|
      invariant pos == start + i
      invariant b[..pos] == old(b[..start]) + LengthBytes(args)[..i]
    {
      b[pos] := |args[i]|;
      assert b[..pos + 1] == b[..pos] + [|args[i]|];
      assert LengthBytes(args)[..i + 1] == LengthBytes(args)[..i] + [|args[i]|];
      pos := pos + 1;
    }
  }

  method UnmarshalAuthorReply(a: Ref<AuthorReply>, data: Bytes) returns (e: Option<Error>)
    modifies a
    ensures match AuthorReplyParse(data)
            case Ok(v) => e == None && a.value == v
            case Err(err) => e == Some(err) && a.value == old(a.value).(status := a.value.status)
  {
    if |data| < 6 {
      return Some(InvalidPacket);
    }
    a.value := a.value.(status := data[0]);
    var ml, dl := FromU16(data[2], data[3]), FromU16(data[4], data[5]);
    var n := data[1] as int;
    var pos := 6;
    if pos + n > |data| {
      return Some(InvalidPacket);
    }
    var lengths: Bytes := [];
    for i := 0 to n
      invariant pos == 6 + i && lengths == data[6..pos]
    {
      lengths := lengths + [data[pos]];
      pos := pos + 1;
    }
    var argTotal := SumLengths(lengths);
    TotalThree(0, ml, dl, lengths);
    if pos + ml + dl + argTotal != |data| {
      return Some(InvalidLength);
    }
    CutTwo(data, pos, ml, dl, lengths);
    a.value := a.value.(serverMsg := data[pos..pos + ml]);
    pos := pos + ml;
    a.value := a.value.(data := data[pos..pos + dl]);
    pos := pos + dl;
    var args := SliceArgs(data, pos, lengths);
    a.value := a.value.(args := args);
    return None;
  }

  // ---------------------------------------------------------------- accounting bodies

  function AcctRequestOutcome(a: AcctRequest): Result<Bytes> {
    if !AllShort(AcctFields(a)) || !AllShort(a.args) then Err(InvalidLength)
    else if |a.args| > 255 then Err(TooManyArguments)
    else Ok(AcctRequestWire(a))
  }

  method MarshalAcctRequest(a: AcctRequest) returns (r: Result<Bytes>)
    ensures r == AcctRequestOutcome(a)
  {
    assert AllShort(AcctFields(a)) <==> |a.user| <= 255 && |a.port| <= 255 && |a.remAddr| <= 255 by {
      AllShortThree(a.user, a.port, a.remAddr);
    }
    if |a.user| > 0xff || |a.port| > 0xff || |a.remAddr| > 0xff {
      return Err(InvalidLength);
    }
    var ok := CheckByteLens(a.args);
    if !ok {
      return Err(InvalidLength);
    }
    if |a.args| > 0xff {
      return Err(TooManyArguments);
    }
    var argBytes := TotalBytes(a.args);
    var b := new byte[9 + |a.args| + |a.user| + |a.port| + |a.remAddr| + argBytes];
    b[0], b[1], b[2], b[3], b[4] := a.flags, a.method_, a.privLvl, a.authenType, a.service;
    b[5], b[6], b[7] := |a.user|, |a.port|, |a.remAddr|;
    assert b[..8] == [a.flags, a.method_, a.privLvl, a.authenType, a.service] + LengthBytes(AcctFields(a));
    var table := EncodeArgLengths(b, 8, a.args);
    // The lengths were checked above, so the table is always written.
    var pos := WriteFields(b, table.value, a.user, a.port, a.remAddr, a.args);
    assert b[..pos] == b[..];
    return Ok(b[..]);
  }

  method UnmarshalAcctRequest(a: Ref<AcctRequest>, data: Bytes) returns (e: Option<Error>)
    modifies a
    ensures match AcctRequestParse(data)
            case Ok(v) => e == None && a.value == v
            case Err(err) => e == Some(err) && AcctFields(a.value) == AcctFields(old(a.value)) && a.value.args == old(a.value).args
  {
    if |data| < 9 {
      return Some(InvalidPacket);
    }
    a.value := a.value.(flags := data[0], method_ := data[1], privLvl := data[2], authenType := data[3], service := data[4]);
    var ul, pl, rl := data[5] as int, data[6] as int, data[7] as int;
    var lengths, pos := DecodeArgLengths(data, 8);
    if lengths.Err? {
      return Some(lengths.error);
    }
    var argTotal := SumLengths(lengths.value);
    assert data[5..8] == [ul, pl, rl];
    TotalThree(ul, pl, rl, lengths.value);
    if pos + ul + pl + rl + argTotal != |data| {
      return Some(InvalidLength);
    }
    var user, port, remAddr, args := SliceFields(data, pos, ul, pl, rl, lengths.value);
    a.value := a.value.(user := user, port := port, remAddr := remAddr, args := args);
    return None;
  }

  /** A request marshals exactly when it fits; a field or argument that is too long is reported before too
      many arguments. */
  lemma LimitErrors(a: AuthorRequest, b: AuthorReply, c: AcctRequest)
    ensures var r, short := AuthorRequestOutcome(a), |a.user| <= 255 && |a.port| <= 255 && |a.remAddr| <= 255 && forall x | x in a.args :: |x| <= 255;
            && (r.Ok? <==> short && |a.args| <= 255)
            && (r.Err? ==> r.error == if short then TooManyArguments else InvalidLength)
    ensures var r, short := AuthorReplyOutcome(b), |b.serverMsg| <= 65535 && |b.data| <= 65535 && forall x | x in b.args :: |x| <= 255;
            && (r.Ok? <==> short && |b.args| <= 255)
            && (r.Err? ==> r.error == if short then TooManyArguments else InvalidLength)
    ensures var r, short := AcctRequestOutcome(c), |c.user| <= 255 && |c.port| <= 255 && |c.remAddr| <= 255 && forall x | x in c.args :: |x| <= 255;
            && (r.Ok? <==> short && |c.args| <= 255)
            && (r.Err? ==> r.error == if short then TooManyArguments else InvalidLength)
  {
    hide AuthorRequestWire, AuthorReplyWire, AcctRequestWire;
    AllShortThree(a.user, a.port, a.remAddr);
    AllShortThree(c.user, c.port, c.remAddr);
    ShortIs(a.args);
    ShortIs(b.args);
    ShortIs(c.args);
  }

  lemma ShortIs(args: seq<Bytes>)
    ensures AllShort(args) <==> forall x | x in args :: |x| <= 255
  {
    if AllShort(args) {
      forall x | x in args
        ensures |x| <= 255
      {
        var i :| 0 <= i < |args| && args[i] == x;
      }
    }
    if forall x | x in args :: |x| <= 255 {
      assert forall i | 0 <= i < |args| :: args[i] in args;
    }
  }

  method MarshalAcctReply(a: AcctReply) returns (r: Result<Bytes>)
    ensures r == if AcctReplyFits(a) then Ok(AcctReplyWire(a)) else Err(InvalidLength)
  {
    if |a.serverMsg| > 0xffff || |a.data| > 0xffff {
      return Err(InvalidLength);
    }
    var b := new byte[5 + |a.serverMsg| + |a.data|];
    b[0], b[1] := |a.serverMsg| / 256, |a.serverMsg| % 256;
    b[2], b[3] := |a.data| / 256, |a.data| % 256;
    b[4] := a.status;
    assert b[..5] == U16(|a.serverMsg|) + U16(|a.data|) + [a.status];
    var pos := CopyAt(b, 5, a.serverMsg);
    pos := CopyAt(b, pos, a.data);
    assert b[..pos] == b[..];
    return Ok(b[..]);
  }

  method UnmarshalAcctReply(a: Ref<AcctReply>, data: Bytes) returns (e: Option<Error>)
    modifies a
    ensures match AcctReplyParse(data)
            case Ok(v) => e == None && a.value == v
            case Err(err) => e == Some(err) && a.value == old(a.value)
  {
    if |data| < 5 {
      return Some(InvalidPacket);
    }
    var ml, dl := FromU16(data[0], data[1]), FromU16(data[2], data[3]);
    if 5 + ml + dl != |data| {
      return Some(InvalidLength);
    }
    a.value := a.value.(status := data[4]);
    var pos := 5;
    a.value := a.value.(serverMsg := data[pos..pos + ml]);
    pos := pos + ml;
    a.value := a.value.(data := data[pos..pos + dl]);
    return None;
  }
}
