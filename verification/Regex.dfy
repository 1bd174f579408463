/**
  The regular expressions that glob patterns are compiled to, and what they match
  (cmd/tacacs-cli/server.go, globToRegex).

  `Parse` reads the fragment of Go's syntax made of anchors, literals, quoted punctuation, the dot and
  the star; `Search` is what it means for an expression to match somewhere in a text. Go's engine reads
  both the expression and the text as runes; the code that translates globs works on bytes. `Covers` is
  what a translated glob matches, and `CoversBytes` says when that is what its bytes say.
*/
module Regex {
  import opened Base
  import opened Text
  import opened Runes

  /** Text as bytes or as runes; quoting and translating do the same to both. */
  type Symbols = seq<int>

  const BACKSLASH: byte := 0x5c
  const DOT: byte := 0x2e
  const STAR: byte := 0x2a
  const CARET: byte := 0x5e
  const DOLLAR: byte := 0x24

  /** What regexp.QuoteMeta escapes: \.+*?()|[]{}^$ */
  predicate IsMeta(r: int) {
    r in {0x5c, 0x2e, 0x2b, 0x2a, 0x3f, 0x28, 0x29, 0x7c, 0x5b, 0x5d, 0x7b, 0x7d, 0x5e, 0x24}
  }

  lemma MetaIs(b: byte)
    ensures IsMeta(b) <==> b in Ascii("\\.+*?()|[]{}^$")
  {
    assert Ascii("\\.+*?()|[]{}^$") == [0x5c, 0x2e, 0x2b, 0x2a, 0x3f, 0x28, 0x29, 0x7c, 0x5b, 0x5d, 0x7b, 0x7d, 0x5e, 0x24];
  }

  // ---------------------------------------------------------------- meaning

  datatype Atom = Begin | End | Literal(r: int) | AnyRune

  datatype Piece = One(atom: Atom) | Many(atom: Atom)

  predicate Consumes(a: Atom, r: int) {
    match a
    case Literal(c) => r == c
    case AnyRune => r != LF
    case Begin => false
    case End => false
  }

  /** Whether the pieces match the text from position i on; what is left over does not matter. */
  predicate MatchFrom(ps: seq<Piece>, s: Symbols, i: nat)
    requires i <= |s|
    decreases |ps|, |s| - i
  {
    if ps == [] then true
    else
      match ps[0]
      case One(Begin) => i == 0 && MatchFrom(ps[1..], s, i)
      case One(End) => i == |s| && MatchFrom(ps[1..], s, i)
      case One(a) => i < |s| && Consumes(a, s[i]) && MatchFrom(ps[1..], s, i + 1)
      case Many(a) => MatchFrom(ps[1..], s, i) || (i < |s| && Consumes(a, s[i]) && MatchFrom(ps, s, i + 1))
  }

  /** Whether the expression matches somewhere in the text. */
  predicate Search(ps: seq<Piece>, s: Symbols) {
    exists i | 0 <= i <= |s| :: MatchFrom(ps, s, i)
  }

  // ---------------------------------------------------------------- syntax

  /** The atom at the front of the text and how many symbols it takes. */
  function ParseAtom(text: Symbols): (r: Option<(Atom, nat)>)
    ensures r.Some? ==> 0 < r.value.1 <= |text|
  {
    if text == [] then None
    else if text[0] == CARET then Some((Begin, 1))
    else if text[0] == DOLLAR then Some((End, 1))
    else if text[0] == DOT then Some((AnyRune, 1))
    else if text[0] == BACKSLASH then
      if |text| > 1 && IsMeta(text[1]) then Some((Literal(text[1]), 2)) else None
    else if IsMeta(text[0]) then None
    else Some((Literal(text[0]), 1))
  }

  /** The expression a text denotes, when it lies in the fragment. */
  function Parse(text: Symbols): Option<seq<Piece>>
    decreases |text|
  {
    if text == [] then Some([])
    else
      match ParseAtom(text)
      case None => None
      case Some((a, n)) =>
        if n < |text| && text[n] == STAR then
          if a.Begin? || a.End? then None
          else
            match Parse(text[n + 1..])
            case None => None
            case Some(rest) => Some([Many(a)] + rest)
        else
          match Parse(text[n..])
          case None => None
          case Some(rest) => Some([One(a)] + rest)
  }

  lemma ParseOne(text: Symbols, a: Atom, n: nat, rest: seq<Piece>)
    requires ParseAtom(text) == Some((a, n)) && !(n < |text| && text[n] == STAR)
    requires Parse(text[n..]) == Some(rest)
    ensures Parse(text) == Some([One(a)] + rest)
  {
  }

  lemma ParseMany(text: Symbols, a: Atom, n: nat, rest: seq<Piece>)
    requires ParseAtom(text) == Some((a, n)) && n < |text| && text[n] == STAR && !a.Begin? && !a.End?
    requires Parse(text[n + 1..]) == Some(rest)
    ensures Parse(text) == Some([Many(a)] + rest)
  {
  }

  // ---------------------------------------------------------------- quoting

  function QuoteMeta(s: Symbols): (r: Symbols)
    ensures forall x | x in r :: x in s || x == BACKSLASH as int
  {
    if s == [] then []
    else (if IsMeta(s[0]) then [BACKSLASH, s[0]] else [s[0]]) + QuoteMeta(s[1..])
  }

  function Literals(s: Symbols): seq<Piece> {
    seq(|s|, i requires 0 <= i < |s| => One(Literal(s[i])))
  }

  /** Quoted text denotes itself, whatever follows, as long as no star follows at once. */
  lemma {:induction false} QuotedIsLiteral(s: Symbols, rest: Symbols)
    requires rest == [] || rest[0] != STAR
    requires Parse(rest).Some?
    ensures Parse(QuoteMeta(s) + rest) == Some(Literals(s) + Parse(rest).value)
    decreases |s|
  {
    hide Parse, IsMeta;
    if s == [] {
      assert QuoteMeta(s) + rest == rest;
      assert Literals(s) + Parse(rest).value == Parse(rest).value;
    } else {
      hide Literals;
      var head := if IsMeta(s[0]) then [BACKSLASH, s[0]] else [s[0]];
      var tail := QuoteMeta(s[1..]) + rest;
      var text := QuoteMeta(s) + rest;
      assert text == head + tail;
      QuotedIsLiteral(s[1..], rest);
      var pieces := Literals(s[1..]) + Parse(rest).value;
      NoStarAhead(s[1..], rest);
      ParseQuotedByte(s[0], tail, pieces);
      LiteralsStep(s, Parse(rest).value);
    }
  }

  lemma LiteralsStep(s: Symbols, ps: seq<Piece>)
    requires s != []
    ensures Literals(s) + ps == [One(Literal(s[0]))] + (Literals(s[1..]) + ps)
  {
  }

  lemma ParseQuotedByte(b: int, tail: Symbols, pieces: seq<Piece>)
    requires tail == [] || tail[0] != STAR
    requires Parse(tail) == Some(pieces)
    ensures var head: Symbols := if IsMeta(b) then [BACKSLASH, b] else [b];
            Parse(head + tail) == Some([One(Literal(b))] + pieces)
  {
  }

  lemma NoStarAhead(s: Symbols, rest: Symbols)
    requires rest == [] || rest[0] != STAR
    ensures var t := QuoteMeta(s) + rest; t == [] || t[0] != STAR
  {
  }

  /** Literals match exactly themselves. */
  lemma {:induction false} LiteralsMatch(lits: Symbols, ps: seq<Piece>, s: Symbols, i: nat)
    requires i <= |s|
    ensures MatchFrom(Literals(lits) + ps, s, i) <==>
            i + |lits| <= |s| && s[i..i + |lits|] == lits && MatchFrom(ps, s, i + |lits|)
    decreases |lits|
  {
    if lits == [] {
      assert Literals(lits) + ps == ps;
    } else {
      var qs := Literals(lits) + ps;
      assert qs[0] == One(Literal(lits[0])) && qs[1..] == Literals(lits[1..]) + ps;
      if i < |s| && s[i] == lits[0] {
        LiteralsMatch(lits[1..], ps, s, i + 1);
        if i + |lits| <= |s| {
          assert s[i..i + |lits|] == [s[i]] + s[i + 1..i + |lits|];
          assert s[i..i + |lits|] == lits <==> s[i + 1..i + |lits|] == lits[1..];
        }
      } else if i + |lits| <= |s| {
        assert s[i..i + |lits|][0] != lits[0];
      }
    }
  }

  /** `.*$` matches from i exactly when no newline follows. */
  lemma {:induction false} DotStarEnd(s: Symbols, i: nat)
    requires i <= |s|
    ensures MatchFrom([Many(AnyRune), One(End)], s, i) <==> LF !in s[i..]
    decreases |s| - i
  {
    var ps := [Many(AnyRune), One(End)];
    assert ps[1..] == [One(End)] && [One(End)][1..] == [];
    assert MatchFrom([One(End)], s, i) <==> i == |s|;
    assert MatchFrom(ps, s, i) <==> i == |s| || (s[i] != LF && MatchFrom(ps, s, i + 1));
    if i < |s| {
      DotStarEnd(s, i + 1);
      assert s[i..] == [s[i]] + s[i + 1..];
    }
  }

  // ---------------------------------------------------------------- globs

  /** A pattern with a trailing wildcard: it ends in a space and a star. */
  predicate Wild(glob: Symbols) {
    |glob| >= 2 && glob[|glob| - 2] == SPACE as int && glob[|glob| - 1] == STAR as int
  }

  /** The part of a pattern that is matched literally. */
  function Stem(glob: Symbols): (r: Symbols)
    ensures forall x | x in r :: x in glob
  {
    if Wild(glob) then glob[..|glob| - 1] else glob
  }

  function Suffix(wild: bool): Symbols {
    if wild then [DOT, STAR, DOLLAR] else [DOLLAR]
  }

  function Translated(glob: Symbols): (r: Symbols)
    ensures forall x | x in r :: x in glob || x in {CARET as int, BACKSLASH as int, DOT as int, STAR as int, DOLLAR as int}
  {
    [CARET] + QuoteMeta(Stem(glob)) + Suffix(Wild(glob))
  }

  function ByteStem(glob: Bytes): (r: Bytes)
    ensures r <= glob && (!Wild(glob) ==> r == glob)
  {
    if Wild(glob) then glob[..|glob| - 1] else glob
  }

  function GlobToRegex(glob: Bytes): Bytes {
    var r := Translated(glob);
    assert forall i | 0 <= i < |r| :: r[i] in r;
    r
  }

  function GlobPieces(glob: Symbols): seq<Piece> {
    [One(Begin)] + Literals(Stem(glob)) + if Wild(glob) then [Many(AnyRune), One(End)] else [One(End)]
  }

  /** The emitted text always lies in the fragment: an anchored literal with or without a trailing
      wildcard. */
  lemma GlobParses(glob: Symbols)
    ensures Parse(Translated(glob)) == Some(GlobPieces(glob))
  {
    hide Parse, QuoteMeta, Literals, Wild;
    var stem, rest := Stem(glob), Suffix(Wild(glob));
    SuffixParses();
    QuotedIsLiteral(stem, rest);
    NoStarAhead(stem, rest);
    var text := Translated(glob);
    assert text == [CARET as int] + (QuoteMeta(stem) + rest);
    assert text[1..] == QuoteMeta(stem) + rest;
    ParseOne(text, Begin, 1, Literals(stem) + Parse(rest).value);
    assert [One(Begin)] + (Literals(stem) + Parse(rest).value) == [One(Begin)] + Literals(stem) + Parse(rest).value;
  }

  lemma SuffixParses()
    ensures Parse(Suffix(false)) == Some([One(End)])
    ensures Parse(Suffix(true)) == Some([Many(AnyRune), One(End)])
  {
    var dollar, dotStar := Suffix(false), Suffix(true);
    assert dollar[1..] == [] && Parse([]) == Some([]);
    ParseOne(dollar, End, 1, []);
    var end: seq<Piece> := [One(End)];
    assert [One(End)] + [] == end;
    assert dotStar[1 + 1..] == dollar && Parse(dollar) == Some(end);
    ParseMany(dotStar, AnyRune, 1, end);
    assert [Many(AnyRune)] + end == [Many(AnyRune), One(End)];
  }

  /** An anchored expression is decided at the start of the text. */
  lemma AnchoredSearch(ps: seq<Piece>, s: Symbols)
    ensures Search([One(Begin)] + ps, s) <==> MatchFrom(ps, s, 0)
  {
    var qs := [One(Begin)] + ps;
    assert qs[1..] == ps;
    if MatchFrom(ps, s, 0) {
      assert MatchFrom(qs, s, 0);
    }
  }

  /** What a translated glob matches: a text equal to it or, with a wildcard, one that starts with its
      stem and goes on without a newline. */
  lemma GlobSearch(glob: Symbols, s: Symbols)
    ensures Search(GlobPieces(glob), s) <==>
            if Wild(glob) then Stem(glob) <= s && LF as int !in s[|Stem(glob)|..] else s == glob
  {
    var stem := Stem(glob);
    var ps: seq<Piece> := if Wild(glob) then [Many(AnyRune), One(End)] else [One(End)];
    assert GlobPieces(glob) == [One(Begin)] + (Literals(stem) + ps);
    AnchoredSearch(Literals(stem) + ps, s);
    LiteralsMatch(stem, ps, s, 0);
    if |stem| <= |s| {
      assert s[0..|stem|] == s[..|stem|];
      if Wild(glob) {
        DotStarEnd(s, |stem|);
      } else {
        assert [One(End)][1..] == [];
      }
    }
  }

  // ---------------------------------------------------------------- bytes and runes of an expression

  lemma {:induction false} QuoteAppend(a: Symbols, b: Symbols)
    ensures QuoteMeta(a + b) == QuoteMeta(a) + QuoteMeta(b)
  {
    if a == [] {
      assert a + b == b;
    } else {
      assert (a + b)[1..] == a[1..] + b;
      QuoteAppend(a[1..], b);
    }
  }

  lemma {:induction false} QuoteHigh(a: Symbols)
    requires forall i | 0 <= i < |a| :: a[i] >= 0x80
    ensures QuoteMeta(a) == a
  {
    if a != [] {
      QuoteHigh(a[1..]);
      assert a == [a[0]] + a[1..];
    }
  }

  function QuoteBytes(s: Bytes): Bytes {
    var r := QuoteMeta(s);
    assert forall i | 0 <= i < |r| :: r[i] in r;
    r
  }

  /** Quoting the first rune quotes its bytes. */
  lemma QuoteFirst(s: Bytes)
    requires Width(s) > 0
    ensures var w := Width(s);
            && QuoteBytes(s) == QuoteBytes(s[..w]) + QuoteBytes(s[w..])
            && Utf8(QuoteBytes(s[..w])) && Decode(QuoteBytes(s[..w])) == QuoteMeta([Value(s)])
  {
    var w := Width(s);
    assert s == s[..w] + s[w..];
    QuoteAppend(s[..w], s[w..]);
    if w == 1 {
      assert s[..1] == [s[0]] && QuoteMeta([s[0]]) == (if IsMeta(s[0]) then [BACKSLASH as int, s[0] as int] else [s[0] as int]);
      AsciiIsUtf8(QuoteBytes([s[0]]));
    } else {
      QuoteHigh(s[..w]);
      FrontIsWhole(s);
      QuoteHigh([Value(s)]);
    }
  }

  lemma FrontIsWhole(s: Bytes)
    requires Width(s) > 1
    ensures var f := s[..Width(s)];
            && Utf8(f) && Decode(f) == [Value(s)] && (forall i | 0 <= i < |f| :: f[i] >= 0x80) && Value(s) >= 0x80
  {
    var f := s[..Width(s)];
    assert Width(f) == |f| && Value(f) == Value(s);
    assert f[|f|..] == [];
  }

  /** Quoting and decoding commute on well-formed text. */
  lemma {:induction false} QuoteDecodes(s: Bytes)
    requires Utf8(s)
    ensures Utf8(QuoteBytes(s)) && Decode(QuoteBytes(s)) == QuoteMeta(Decode(s))
    decreases |s|
  {
    hide Width, Value, QuoteMeta;
    if s == [] {
      QuoteNothing();
    } else {
      var w := Width(s);
      QuoteFirst(s);
      QuoteDecodes(s[w..]);
      DecodeAppend(QuoteBytes(s[..w]), QuoteBytes(s[w..]));
      QuoteAppend([Value(s)], Decode(s[w..]));
    }
  }

  lemma QuoteNothing()
    ensures QuoteMeta([]) == [] && QuoteBytes([]) == []
  {
  }

  /** A glob has a wildcard as bytes exactly when it has one as runes, with the same stem. */
  lemma WildDecodes(glob: Bytes)
    requires Utf8(glob)
    ensures Wild(glob) <==> Wild(Decode(glob))
    ensures Utf8(ByteStem(glob)) && Decode(ByteStem(glob)) == Stem(Decode(glob))
  {
    hide Decode, Utf8;
    if |glob| >= 2 && glob[|glob| - 1] == STAR {
      var n := |glob| - 1;
      assert glob == glob[..n] + [STAR];
      LastAscii(glob[..n], STAR);
      if glob[n - 1] == SPACE {
        assert glob[..n] == glob[..n - 1] + [SPACE];
        LastAscii(glob[..n - 1], SPACE);
      } else {
        LastByteRune(glob[..n]);
      }
    } else if glob != [] {
      LastByteRune(glob);
      if |glob| == 1 {
        OneByte(glob);
      }
    } else {
      NothingDecodes();
    }
  }


  lemma NothingDecodes()
    ensures Decode([]) == []
  {
  }

  lemma OneByte(glob: Bytes)
    requires Utf8(glob) && |glob| == 1
    ensures |Decode(glob)| == 1
  {
  }

  /** The last byte and the last rune are the same when either is ASCII. */
  lemma LastByteRune(s: Bytes)
    requires Utf8(s) && s != []
    ensures Decode(s) != []
    ensures var r, b := Decode(s)[|Decode(s)| - 1], s[|s| - 1]; (r < 0x80 <==> b < 0x80) && (b < 0x80 ==> r == b)
  {
    hide Decode, Utf8;
    LastRune(s);
    var n := |s| - 1;
    if s[n] < 0x80 {
      assert s == s[..n] + [s[n]];
      LastAscii(s[..n], s[n]);
    }
  }

  /** Read as runes, the expression of a well-formed glob is the expression of its runes. */
  lemma TranslationDecodes(glob: Bytes)
    requires Utf8(glob)
    ensures Decode(GlobToRegex(glob)) == Translated(Decode(glob))
  {
    hide Decode, Utf8, QuoteMeta, Wild;
    var stem := ByteStem(glob);
    var rest: Bytes := if Wild(glob) then [DOT, STAR, DOLLAR] else [DOLLAR];
    WildDecodes(glob);
    QuoteDecodes(stem);
    AsciiIsUtf8(rest);
    AsciiIsUtf8([CARET]);
    var quoted := QuoteBytes(stem);
    assert GlobToRegex(glob) == [CARET] + (quoted + rest);
    DecodeAppend([CARET], quoted + rest);
    DecodeAppend(quoted, rest);
  }

  // ---------------------------------------------------------------- the engine

  /** A length well below the size at which Go refuses an expression. */
  const MAX_GLOB := 1_000_000

  /** Globs whose expression Go's engine takes: it refuses what is not UTF-8. */
  predicate Translatable(glob: Bytes) {
    Utf8(glob) && |glob| <= MAX_GLOB
  }

  /** Go's regexp package: which patterns compile and which texts they match. */
  datatype Engine = Engine(compiles: Bytes -> bool, matches: (Bytes, Bytes) -> bool)

  predicate Denotes(text: Symbols, s: Symbols) {
    match Parse(text)
    case Some(ps) => Search(ps, s)
    case None => false
  }

  /** On the expressions of globs the engine compiles exactly what is UTF-8, and matches what the runes of
      the expression say of the runes of a command; of any other pattern nothing is asked. */
  ghost predicate Faithful(e: Engine) {
    && (forall glob: Bytes | |glob| <= MAX_GLOB :: e.compiles(GlobToRegex(glob)) <==> Utf8(glob))
    && (forall glob: Bytes, s: Bytes | Translatable(glob) ::
          e.matches(GlobToRegex(glob), s) <==> Denotes(Decode(GlobToRegex(glob)), Decode(s)))
  }

  /** What the expression of a glob matches, rune by rune. */
  predicate Covers(glob: Bytes, cmd: Bytes) {
    var g, c := Decode(glob), Decode(cmd);
    if Wild(g) then Stem(g) <= c && LF as int !in c[|Stem(g)|..] else c == g
  }

  /** The engine matches with the expression of a glob exactly what the glob covers. */
  lemma EngineCovers(e: Engine, glob: Bytes, cmd: Bytes)
    requires Faithful(e) && Translatable(glob)
    ensures e.compiles(GlobToRegex(glob)) && GlobToRegex(glob) != []
    ensures e.matches(GlobToRegex(glob), cmd) <==> Covers(glob, cmd)
  {
    hide Parse, Search, GlobPieces, Utf8, Decode, Stem, Wild, Translated;
    assert e.matches(GlobToRegex(glob), cmd) <==> Denotes(Decode(GlobToRegex(glob)), Decode(cmd));
    TranslationDecodes(glob);
    GlobParses(Decode(glob));
    GlobSearch(Decode(glob), Decode(cmd));
    NotEmpty(glob);
  }

  lemma NotEmpty(glob: Bytes)
    ensures GlobToRegex(glob) != []
  {
  }

  /** Reading runes makes a difference to a glob only for the replacement character: it stands for itself
      and, in a command that is not UTF-8, for every byte that does not belong to a rune. */
  predicate ReadAlike(glob: Bytes, cmd: Bytes) {
    REPLACEMENT !in Decode(glob) || Utf8(cmd)
  }

  /** Whatever the bytes of a glob match is covered unless the wildcard has to stand for a newline, and
      nothing else is covered when both are read alike. */
  lemma CoversBytes(glob: Bytes, cmd: Bytes)
    requires Utf8(glob)
    ensures var stem := ByteStem(glob);
            var meant := if Wild(glob) then stem <= cmd && LF !in cmd[|stem|..] else cmd == glob;
            && (meant ==> Covers(glob, cmd))
            && (ReadAlike(glob, cmd) ==> (Covers(glob, cmd) <==> meant))
            && (Wild(glob) && stem <= cmd ==> (Covers(glob, cmd) <==> LF !in cmd[|stem|..]))
  {
    hide Decode, Utf8, Wild, Stem;
    var stem := ByteStem(glob);
    WildDecodes(glob);
    if Wild(glob) && stem <= cmd {
      var rest := cmd[|stem|..];
      assert cmd == stem + rest;
      DecodeAppend(stem, rest);
      NewlineDecodes(rest);
      assert Decode(cmd)[|Decode(stem)|..] == Decode(rest);
    }
    if ReadAlike(glob, cmd) {
      StemIsAlike(glob, cmd);
      PrefixDecodes(stem, cmd);
      SameRunes(glob, cmd);
    }
  }

  lemma StemIsAlike(glob: Bytes, cmd: Bytes)
    requires Utf8(glob) && ReadAlike(glob, cmd)
    ensures Utf8(ByteStem(glob)) && (REPLACEMENT !in Decode(ByteStem(glob)) || Utf8(cmd))
  {
    hide Decode, Utf8, Wild;
    WildDecodes(glob);
  }
}
