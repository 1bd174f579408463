/**
  How Go reads a string as runes: well-formed UTF-8 sequences are decoded, and every byte that does not
  start one is read as the replacement character.
*/
module Runes {
  import opened Base
  import opened Text

  type Rune = r: int | 0 <= r <= 0x10ffff

  /** U+FFFD */
  const REPLACEMENT: Rune := 0xfffd

  predicate Trail(b: byte) {
    0x80 <= b <= 0xbf
  }

  /** The length of the well-formed sequence at the front, or 0. */
  function Width(s: Bytes): (w: nat)
    ensures w <= |s| && w <= 4
    ensures forall i | 1 <= i < w :: Trail(s[i])
    ensures w > 0 ==> (s[0] < 0x80 <==> w == 1)
  {
    if s == [] then 0
    else if s[0] < 0x80 then 1
    else if 0xc2 <= s[0] <= 0xdf && |s| >= 2 && Trail(s[1]) then 2
    else if 0xe0 <= s[0] <= 0xef && |s| >= 3 && Trail(s[1]) && Trail(s[2])
            && (s[0] == 0xe0 ==> s[1] >= 0xa0) && (s[0] == 0xed ==> s[1] <= 0x9f) then 3
    else if 0xf0 <= s[0] <= 0xf4 && |s| >= 4 && Trail(s[1]) && Trail(s[2]) && Trail(s[3])
            && (s[0] == 0xf0 ==> s[1] >= 0x90) && (s[0] == 0xf4 ==> s[1] <= 0x8f) then 4
    else 0
  }

  /** The code point of the sequence at the front. */
  function Value(s: Bytes): (r: Rune)
    requires Width(s) > 0
    ensures r < 0x80 <==> Width(s) == 1
    ensures Width(s) == 1 ==> r == s[0]
  {
    var w := Width(s);
    var a := s[0] as int;
    if w == 1 then a
    else if w == 2 then (a - 0xc0) * 64 + (s[1] as int - 0x80)
    else if w == 3 then ((a - 0xe0) * 64 + (s[1] as int - 0x80)) * 64 + (s[2] as int - 0x80)
    else (((a - 0xf0) * 64 + (s[1] as int - 0x80)) * 64 + (s[2] as int - 0x80)) * 64 + (s[3] as int - 0x80)
  }

  function Decode(s: Bytes): seq<Rune>
    decreases |s|
  {
    if s == [] then []
    else if Width(s) == 0 then [REPLACEMENT] + Decode(s[1..])
    else [Value(s)] + Decode(s[Width(s)..])
  }

  predicate Utf8(s: Bytes)
    decreases |s|
  {
    s == [] || (Width(s) > 0 && Utf8(s[Width(s)..]))
  }

  // ---------------------------------------------------------------- decoding piece by piece

  lemma WidthAppend(a: Bytes, b: Bytes)
    requires Width(a) > 0
    ensures Width(a + b) == Width(a) && Value(a + b) == Value(a)
    ensures (a + b)[Width(a)..] == a[Width(a)..] + b
  {
  }

  /** Decoding goes on after well-formed text as if nothing had come before. */
  lemma {:induction false} DecodeAppend(a: Bytes, b: Bytes)
    requires Utf8(a)
    ensures Decode(a + b) == Decode(a) + Decode(b)
    ensures Utf8(a + b) <==> Utf8(b)
    decreases |a|
  {
    hide Width, Value;
    if a == [] {
      assert a + b == b;
    } else {
      WidthAppend(a, b);
      DecodeAppend(a[Width(a)..], b);
    }
  }

  /** What precedes an ASCII byte in well-formed text is well formed. */
  lemma {:induction false} Utf8Front(a: Bytes, b: Bytes)
    requires Utf8(a + b) && b != [] && b[0] < 0x80
    ensures Utf8(a)
    decreases |a|
  {
    if a != [] {
      var w := Width(a + b);
      assert (a + b)[|a|] == b[0];
      assert w <= |a|;
      FrontWidth(a, b);
      assert (a + b)[w..] == a[w..] + b;
      Utf8Front(a[w..], b);
    }
  }

  lemma FrontWidth(a: Bytes, b: Bytes)
    requires 0 < Width(a + b) <= |a|
    ensures Width(a) == Width(a + b)
  {
    var s := a + b;
    assert forall i | 0 <= i < |a| :: s[i] == a[i];
  }

  /** The last ASCII byte of well-formed text is its last rune. */
  lemma LastAscii(a: Bytes, b: byte)
    requires Utf8(a + [b]) && b < 0x80
    ensures Utf8(a) && Decode(a + [b]) == Decode(a) + [b as int]
  {
    Utf8Front(a, [b]);
    DecodeAppend(a, [b]);
    assert [b][1..] == [];
    assert Decode([b]) == [b as int];
  }

  /** A last rune below 0x80 is the last byte. */
  lemma {:induction false} LastRune(s: Bytes)
    requires Utf8(s) && s != []
    ensures Decode(s) != []
    ensures Decode(s)[|Decode(s)| - 1] < 0x80 ==> s[|s| - 1] < 0x80
    decreases |s|
  {
    var w := Width(s);
    var rest := s[w..];
    if rest == [] {
      assert Decode(s) == [Value(s)];
    } else {
      LastRune(rest);
      assert Decode(s)[|Decode(s)| - 1] == Decode(rest)[|Decode(rest)| - 1];
      assert s[|s| - 1] == rest[|rest| - 1];
    }
  }

  lemma {:induction false} AsciiIsUtf8(s: Bytes)
    requires forall i | 0 <= i < |s| :: s[i] < 0x80
    ensures Utf8(s) && Decode(s) == s
    decreases |s|
  {
    if s != [] {
      AsciiIsUtf8(s[1..]);
      assert s == [s[0]] + s[1..];
    }
  }

  /** A newline is read exactly where there is one. */
  lemma {:induction false} NewlineDecodes(s: Bytes)
    ensures LF in Decode(s) <==> LF in s
    decreases |s|
  {
    hide Width, Value;
    if s != [] {
      var w := if Width(s) == 0 then 1 else Width(s);
      NewlineDecodes(s[w..]);
      assert s == s[..w] + s[w..];
      FirstNewlineRune(s);
    }
  }

  lemma FirstNewlineRune(s: Bytes)
    requires s != []
    ensures Width(s) == 0 ==> (LF !in s[..1])
    ensures Width(s) > 0 ==> (LF in s[..Width(s)] <==> Value(s) == LF as int)
  {
  }

  // ---------------------------------------------------------------- decoding loses nothing but invalid bytes

  /** Only one sequence has a given code point. */
  lemma ValueDetermines(a: Bytes, b: Bytes)
    requires Width(a) > 0 && Width(b) > 0 && Value(a) == Value(b)
    ensures Width(a) == Width(b) && a[..Width(a)] == b[..Width(b)]
  {
    ValueRange(a);
    ValueRange(b);
    var w := Width(a);
    if w == 3 {
      assert a[0] == b[0] && a[1] == b[1] && a[2] == b[2];
    } else if w == 4 {
      assert a[0] == b[0] && a[1] == b[1] && a[2] == b[2] && a[3] == b[3];
    }
  }

  lemma ValueRange(s: Bytes)
    requires Width(s) > 0
    ensures Width(s) == 2 ==> 0x80 <= Value(s) <= 0x7ff
    ensures Width(s) == 3 ==> 0x800 <= Value(s) <= 0xffff
    ensures Width(s) == 4 ==> 0x10000 <= Value(s)
  {
  }

  /** The first rune of a string, when it is not an invalid byte, gives its first bytes. */
  lemma FirstRune(a: Bytes, s: Bytes)
    requires Width(a) > 0 && Decode(s) != [] && Decode(s)[0] == Value(a)
    requires Value(a) != REPLACEMENT || Utf8(s)
    ensures var w := Width(a); Width(s) == w && a[..w] == s[..w] && Decode(s)[1..] == Decode(s[w..])
  {
    hide Value;
    assert Width(s) > 0;
    ValueDetermines(a, s);
  }

  /** Well-formed text without the replacement character, or facing well-formed text, is found in the
      runes of a string exactly where it is found in its bytes. */
  lemma {:induction false} PrefixDecodes(a: Bytes, s: Bytes)
    requires Utf8(a) && (REPLACEMENT !in Decode(a) || Utf8(s))
    ensures Decode(a) <= Decode(s) <==> a <= s
    decreases |a|
  {
    if a <= s {
      DecodeAppend(a, s[|a|..]);
      assert s == a + s[|a|..];
    }
    if Decode(a) <= Decode(s) {
      PrefixOfRunes(a, s);
    }
  }

  lemma {:induction false} PrefixOfRunes(a: Bytes, s: Bytes)
    requires Utf8(a) && (REPLACEMENT !in Decode(a) || Utf8(s)) && Decode(a) <= Decode(s)
    ensures a <= s
    decreases |a|
  {
    hide Width, Value;
    if a != [] {
      var w := Width(a);
      assert Decode(s)[0] == Decode(a)[0];
      FirstRune(a, s);
      assert Decode(a)[1..] == Decode(a[w..]);
      assert Decode(a)[1..] <= Decode(s)[1..];
      PrefixOfRunes(a[w..], s[w..]);
      assert a == a[..w] + a[w..] && s == s[..w] + s[w..];
    }
  }

  lemma SameRunes(a: Bytes, s: Bytes)
    requires Utf8(a) && (REPLACEMENT !in Decode(a) || Utf8(s))
    ensures Decode(s) == Decode(a) <==> s == a
  {
    PrefixDecodes(a, s);
    if a <= s {
      DecodeAppend(a, s[|a|..]);
      assert s == a + s[|a|..];
      if s[|a|..] != [] {
        assert Decode(s[|a|..]) != [];
      }
    }
  }
}
