/** Lines of text as both the PROXY header and the original TACACS encoding use them. */
module Text {
  import opened Base

  const SPACE: byte := 0x20
  const CR: byte := 13
  const LF: byte := 10

  /** Drops every carriage return and newline at the end. */
  function TrimLine(s: Bytes): Bytes {
    if s != [] && s[|s| - 1] in {CR, LF} then TrimLine(s[..|s| - 1]) else s
  }

  lemma TrimLineEnd(line: Bytes)
    requires LF !in line && CR !in line
    ensures TrimLine(line + [CR, LF]) == line
  {
    var a := line + [CR, LF];
    var b := line + [CR];
    assert a[..|a| - 1] == b && b[..|b| - 1] == line;
    assert TrimLine(b) == TrimLine(line);
    assert TrimLine(line) == line;
  }
}
