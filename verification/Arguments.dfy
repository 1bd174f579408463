/**
  Argument-value pairs (types/arg.go; section 6.1 of RFC 8907): a name, a separator that
  says whether the argument is mandatory, and a value.
*/
module Arguments {
  import opened Base

  const MANDATORY: byte := 0x3d  // '='
  const OPTIONAL: byte := 0x2a   // '*'

  datatype Argument = Argument(mandatory: bool, name: Bytes, value: Bytes)

  predicate IsSeparator(b: byte) {
    b == MANDATORY || b == OPTIONAL
  }

  /** A name that survives the trip through text: not empty and free of separators. */
  predicate WellFormed(a: Argument) {
    a.name != [] && forall i | 0 <= i < |a.name| :: !IsSeparator(a.name[i])
  }

  function Render(a: Argument): Bytes {
    a.name + [if a.mandatory then MANDATORY else OPTIONAL] + a.value
  }

  /** The position of the first separator, or the length when there is none. */
  function FirstSeparator(s: Bytes): (i: nat)
    ensures i <= |s|
    ensures forall j | 0 <= j < i :: !IsSeparator(s[j])
    ensures i < |s| ==> IsSeparator(s[i])
  {
    if s == [] || IsSeparator(s[0]) then 0 else 1 + FirstSeparator(s[1..])
  }

  function Parse(s: Bytes): Result<Argument> {
    var i := FirstSeparator(s);
    if i == |s| || i == 0 then Err(InvalidArgument)
    else Ok(Argument(s[i] == MANDATORY, s[..i], s[i + 1..]))
  }

  method ParseArgument(s: Bytes) returns (r: Result<Argument>)
    ensures r == Parse(s)
  {
    for i := 0 to |s|
      invariant forall j | 0 <= j < i :: !IsSeparator(s[j])
    {
      if s[i] == MANDATORY || s[i] == OPTIONAL {
        assert FirstSeparator(s) == i;
        if i == 0 {
          return Err(InvalidArgument);
        }
        return Ok(Argument(s[i] == MANDATORY, s[..i], s[i + 1..]));
      }
    }
    return Err(InvalidArgument);
  }

  /** Text is parsed back to the argument it was printed from exactly for well-formed arguments. */
  lemma ParseInvertsRender(a: Argument)
    ensures Parse(Render(a)) == Ok(a) <==> WellFormed(a)
  {
    var s := Render(a);
    var i := FirstSeparator(s);
    assert s[|a.name|] == if a.mandatory then MANDATORY else OPTIONAL;
    assert s[..|a.name|] == a.name && s[|a.name| + 1..] == a.value;
    if WellFormed(a) {
      assert forall j | 0 <= j < |a.name| :: s[j] == a.name[j];
      assert i == |a.name|;
    } else if a.name != [] {
      var j :| 0 <= j < |a.name| && IsSeparator(a.name[j]);
      assert s[j] == a.name[j];
      assert i <= j;
    }
  }

  /** Whatever is accepted is well formed and prints back to the same text. */
  lemma RenderInvertsParse(s: Bytes)
    requires Parse(s).Ok?
    ensures WellFormed(Parse(s).value) && Render(Parse(s).value) == s
  {
  }

  /** A mandatory argument is written with an equals sign, an optional one with a star. */
  lemma Separators(name: Bytes, value: Bytes)
    ensures Render(Argument(true, name, value)) == name + Ascii("=") + value
    ensures Render(Argument(false, name, value)) == name + Ascii("*") + value
  {
    assert Ascii("=") == [0x3d] && Ascii("*") == [0x2a];
  }

  function RenderAll(args: seq<Argument>): (r: seq<Bytes>)
    ensures |r| == |args|
  {
    seq(|args|, i requires 0 <= i < |args| => Render(args[i]))
  }

  /** All of the arguments, or the first failure. */
  function ParseAll(ss: seq<Bytes>): (r: Result<seq<Argument>>)
    ensures r.Ok? ==> |r.value| == |ss|
    ensures r.Ok? <==> forall i | 0 <= i < |ss| :: Parse(ss[i]).Ok?
    ensures r.Ok? ==> forall i | 0 <= i < |ss| :: Parse(ss[i]) == Ok(r.value[i])
    ensures r.Err? ==> r.error == InvalidArgument
  {
    if ss == [] then Ok([])
    else
      var front := ParseAll(ss[..|ss| - 1]);
      if front.Err? then front
      else
        var last := Parse(ss[|ss| - 1]);
        if last.Err? then Err(last.error) else Ok(front.value + [last.value])
  }

  /** A list comes back unchanged exactly when every argument in it is well formed. */
  lemma ParseAllInvertsRenderAll(args: seq<Argument>)
    ensures ParseAll(RenderAll(args)) == Ok(args) <==> forall i | 0 <= i < |args| :: WellFormed(args[i])
  {
    forall i | 0 <= i < |args|
      ensures Parse(RenderAll(args)[i]) == Ok(args[i]) <==> WellFormed(args[i])
    {
      ParseInvertsRender(args[i]);
    }
    var r := ParseAll(RenderAll(args));
    if forall i | 0 <= i < |args| :: WellFormed(args[i]) {
      forall i | 0 <= i < |args|
        ensures Parse(RenderAll(args)[i]) == Ok(args[i])
      {
        assert WellFormed(args[i]);
      }
      assert r.Ok? && r.value == args;
    }
  }

  /** The arguments before the first that does not parse. */
  function ParsedFront(ss: seq<Bytes>): (r: seq<Argument>)
    ensures |r| <= |ss|
    ensures forall i | 0 <= i < |r| :: Parse(ss[i]) == Ok(r[i])
    ensures |r| < |ss| ==> Parse(ss[|r|]).Err?
  {
    if ss == [] || Parse(ss[0]).Err? then [] else [Parse(ss[0]).value] + ParsedFront(ss[1..])
  }

  /** Only one list is as long as possible and parses up to there. */
  lemma {:induction false} FrontIs(ss: seq<Bytes>, args: seq<Argument>)
    requires |args| <= |ss| && forall i | 0 <= i < |args| :: Parse(ss[i]) == Ok(args[i])
    requires |args| < |ss| ==> Parse(ss[|args|]).Err?
    ensures args == ParsedFront(ss)
  {
    if args != [] {
      FrontIs(ss[1..], args[1..]);
      assert Parse(ss[0]) == Ok(args[0]);
      assert args == [args[0]] + args[1..];
    }
  }

  lemma FrontOfAll(ss: seq<Bytes>)
    ensures ParseAll(ss).Ok? ==> ParsedFront(ss) == ParseAll(ss).value
  {
    if ParseAll(ss).Ok? {
      FrontIs(ss, ParseAll(ss).value);
    }
  }

  /** Parses a list in order, stopping at the first failure; `front` is what was parsed until then. */
  method ParseArguments(ss: seq<Bytes>) returns (r: Result<seq<Argument>>, front: seq<Argument>)
    ensures r == ParseAll(ss)
    ensures front == ParsedFront(ss)
  {
    front := [];
    for i := 0 to |ss|
      invariant |front| == i
      invariant forall j | 0 <= j < i :: Parse(ss[j]) == Ok(front[j])
    {
      var parsed := ParseArgument(ss[i]);
      if parsed.Err? {
        FrontIs(ss, front);
        return Err(parsed.error), front;
      }
      front := front + [parsed.value];
    }
    FrontIs(ss, front);
    assert ParseAll(ss).Ok? && ParseAll(ss).value == front;
    return Ok(front), front;
  }

  method RenderArguments(args: seq<Argument>) returns (ss: seq<Bytes>)
    ensures ss == RenderAll(args)
  {
    ss := [];
    for i := 0 to |args|
      invariant |ss| == i
      invariant forall j | 0 <= j < i :: ss[j] == Render(args[j])
    {
      ss := ss + [Render(args[i])];
    }
  }
}
